/**
 * `buildTree` and `makeTree` (src/utils/build-tree.ts): a flat list of tree
 * nodes, each with the path of its resource, is sorted into nested folders.
 *
 * The source keeps the folders in nested `Map`s that it changes in place,
 * with a `Set` of nodes under the `FILES` key. Here a folder is a value,
 * `Dir`, whose entries are that Map's keys in insertion order with their
 * values; `BuildStructure` rebuilds the value for each node where the
 * source updates the Maps.
 */
module BuildTree {
  import opened Wrappers
  import opened JsStrings

  /**
   * A node handed to `buildTree`. `id` stands for the object itself (the
   * `Set` of files tells nodes apart by identity), `uri` is
   * `resourceUri?.path`.
   */
  datatype Node = Node(id: nat, uri: Option<string>)

  /** One key of a folder `Map` with its value: the `FILES` bucket, or a sub-folder under its name. */
  datatype Entry = Files(nodes: seq<Node>) | Sub(name: string, dir: Dir)

  /** A folder `Map`: its keys, with their values, in insertion order. */
  datatype Dir = Dir(entries: seq<Entry>)

  /**
   * What `makeTree` returns: the file nodes themselves, and `FolderNode`s.
   * `FolderNode` keeps its name and children only (src/nodes/folder.ts:5
   * drops the `{parentId}` passed at src/utils/build-tree.ts:55);
   * `contentsId` is the id `makeTree` hands down for the folder's contents.
   */
  datatype Tree = Leaf(node: Node) | Folder(name: string, children: seq<Tree>, contentsId: string)

  // ----- buildTree: sorting nodes into folders -----

  /** `path.replace(rootPath, "").split("/")` less its first and last piece: the folders a node sits in. */
  function FolderNames(path: string, rootPath: string): (names: seq<string>)
    ensures forall k :: 0 <= k < |names| ==> '/' !in names[k]
  {
    var pieces := Split(ReplaceFirst(path, rootPath, ""), '/');
    SplitPiecesFree(ReplaceFirst(path, rootPath, ""), '/');
    if |pieces| >= 2 then pieces[1..|pieces| - 1] else []
  }

  /** The index of the sub-folder called `name`, if the folder has one. */
  function FindSub(es: seq<Entry>, name: string): (r: Option<nat>)
    ensures r.Some? ==> r.value < |es| && es[r.value].Sub? && es[r.value].name == name
    ensures r.None? ==> forall i :: 0 <= i < |es| ==> !(es[i].Sub? && es[i].name == name)
  {
    if es == [] then None
    else if es[0].Sub? && es[0].name == name then Some(0)
    else match FindSub(es[1..], name)
      case None => None
      case Some(i) => Some(i + 1)
  }

  /** The index of the `FILES` bucket, if the folder has one. */
  function FindFiles(es: seq<Entry>): (r: Option<nat>)
    ensures r.Some? ==> r.value < |es| && es[r.value].Files?
    ensures r.None? ==> forall i :: 0 <= i < |es| ==> !es[i].Files?
  {
    if es == [] then None
    else if es[0].Files? then Some(0)
    else match FindFiles(es[1..])
      case None => None
      case Some(i) => Some(i + 1)
  }

  /** `parentFolder.get(FILES).add(node)`, creating the bucket first when the folder has none. */
  function AddFile(d: Dir, n: Node): Dir {
    match FindFiles(d.entries)
    case None => Dir(d.entries + [Files([n])])
    case Some(i) =>
      var ns := d.entries[i].nodes;
      if n in ns then d else Dir(d.entries[i := Files(ns + [n])])
  }

  /** The `reduce` walk down `names`, creating missing folders, then the node added to the last one's bucket. */
  function Descend(d: Dir, names: seq<string>, n: Node): Dir
    decreases names
  {
    if names == [] then AddFile(d, n)
    else match FindSub(d.entries, names[0])
      case Some(i) => Dir(d.entries[i := Sub(names[0], Descend(d.entries[i].dir, names[1..], n))])
      case None => Dir(d.entries + [Sub(names[0], Descend(Dir([]), names[1..], n))])
  }

  /** One turn of the `forEach`: a node without a resource is skipped. */
  function Place(d: Dir, n: Node, rootPath: string): Dir {
    match n.uri
    case None => d
    case Some(path) => Descend(d, FolderNames(path, rootPath), n)
  }

  /** The folders after the `forEach` over `nodes`, starting from a fresh empty `Map`. */
  function Structure(nodes: seq<Node>, rootPath: string): Dir
    decreases |nodes|
  {
    if nodes == [] then Dir([])
    else Place(Structure(nodes[..|nodes| - 1], rootPath), nodes[|nodes| - 1], rootPath)
  }

  /** The `forEach` of `buildTree`: each node placed in turn. */
  method BuildStructure(nodes: seq<Node>, rootPath: string) returns (structure: Dir)
    ensures structure == Structure(nodes, rootPath)
  {
    structure := Dir([]);
    for i := 0 to |nodes|
      invariant structure == Structure(nodes[..i], rootPath)
    {
      assert nodes[..i + 1][..i] == nodes[..i];
      structure := Place(structure, nodes[i], rootPath);
    }
    assert nodes[..|nodes|] == nodes;
  }

  // ----- makeTree: folders to tree nodes -----

  /** `[parentId || "", name].join("->")`. */
  function IdFor(parentId: Option<string>, name: string): string {
    Prefix(parentId) + "->" + name
  }

  /** `parentId || ""`. */
  function Prefix(parentId: Option<string>): string {
    match parentId
    case Some(p) => p
    case None => ""
  }

  /** The nodes of a `FILES` bucket, as they are pushed. */
  function Leaves(ns: seq<Node>): (ts: seq<Tree>)
    ensures |ts| == |ns| && forall i :: 0 <= i < |ns| ==> ts[i] == Leaf(ns[i])
  {
    if ns == [] then [] else [Leaf(ns[0])] + Leaves(ns[1..])
  }

  /** `makeTree(map, parentId)`: the tree nodes for each key, in key order. */
  function MakeTree(d: Dir, parentId: Option<string>): seq<Tree>
    decreases d, 2
  {
    MakeEntries(d.entries, parentId)
  }

  function MakeEntries(es: seq<Entry>, parentId: Option<string>): seq<Tree>
    decreases es, 1
  {
    if es == [] then [] else MakeEntry(es[0], parentId) + MakeEntries(es[1..], parentId)
  }

  /** The tree nodes one key of the `Map` gives: its files, or one folder. */
  function MakeEntry(e: Entry, parentId: Option<string>): seq<Tree>
    decreases e, 0
  {
    match e
    case Files(ns) => Leaves(ns)
    case Sub(k, sub) =>
      var id := IdFor(parentId, k);
      [Folder(k, MakeTree(sub, Some(id)), id)]
  }

  lemma {:induction false} MakeEntriesSnoc(es: seq<Entry>, e: Entry, parentId: Option<string>)
    ensures MakeEntries(es + [e], parentId) == MakeEntries(es, parentId) + MakeEntry(e, parentId)
    decreases |es|
  {
    if es == [] {
      assert MakeEntries([e], parentId) == MakeEntry(e, parentId) + [];
    } else {
      assert (es + [e])[1..] == es[1..] + [e];
      MakeEntriesSnoc(es[1..], e, parentId);
    }
  }

  /** `makeTree` as it runs: a loop over the keys, pushing into a local array, recursing into sub-folders. */
  method MakeTreeLoop(d: Dir, parentId: Option<string>) returns (tree: seq<Tree>)
    ensures tree == MakeTree(d, parentId)
    decreases d
  {
    tree := [];
    var es := d.entries;
    for i := 0 to |es|
      invariant tree == MakeEntries(es[..i], parentId)
    {
      var e := es[i];
      assert es[..i + 1] == es[..i] + [e];
      MakeEntriesSnoc(es[..i], e, parentId);
      match e {
        case Files(ns) =>
          tree := tree + Leaves(ns);
        case Sub(k, sub) =>
          var id := IdFor(parentId, k);
          var children := MakeTreeLoop(sub, Some(id));
          tree := tree + [Folder(k, children, id)];
      }
    }
    assert es[..|es|] == es;
  }

  /** `buildTree(nodes, rootPath, parentId)`. */
  method Build(nodes: seq<Node>, rootPath: string, parentId: Option<string>) returns (tree: seq<Tree>)
    ensures tree == MakeTree(Structure(nodes, rootPath), parentId)
  {
    var structure := BuildStructure(nodes, rootPath);
    tree := MakeTreeLoop(structure, parentId);
  }

  // ----- Where a node goes -----

  /** A node at `rootPath/seg1/…/segN/file` sits in the folders `seg1`, …, `segN`. */
  lemma FolderNamesOf(rootPath: string, segs: seq<string>, file: string)
    requires '/' !in file && forall k :: 0 <= k < |segs| ==> '/' !in segs[k]
    ensures FolderNames(rootPath + "/" + Join(segs + [file], "/"), rootPath) == segs
  {
    var parts := segs + [file];
    var rest := "/" + Join(parts, "/");
    Assoc(rootPath, "/", Join(parts, "/"));
    SplitJoined(parts);
    FolderNamesBelow(rootPath, rest, parts);
    assert parts[..|parts| - 1] == segs;
  }

  lemma Assoc(a: string, b: string, c: string)
    ensures a + b + c == a + (b + c)
  {
  }

  lemma FolderNamesBelow(rootPath: string, rest: string, parts: seq<string>)
    requires Split(rest, '/') == [""] + parts && parts != []
    ensures FolderNames(rootPath + rest, rootPath) == parts[..|parts| - 1]
  {
    ReplaceLeadingPrefix(rootPath, rest);
    assert ([""] + parts)[1..|parts|] == parts[..|parts| - 1];
  }

  /** Splitting `"/" + parts.join("/")` at `/` gives an empty piece, then `parts`. */
  lemma SplitJoined(parts: seq<string>)
    requires parts != [] && forall k :: 0 <= k < |parts| ==> '/' !in parts[k]
    ensures Split("/" + Join(parts, "/"), '/') == [""] + parts
  {
    LeadingSeparator(Join(parts, "/"), '/');
    SplitJoin(parts, '/');
  }

  lemma LeadingSeparator(s: string, sep: char)
    ensures Split([sep] + s, sep) == [""] + Split(s, sep)
  {
    assert ([sep] + s)[1..] == s;
  }

  /** A node without a resource leaves the folders as they were. */
  lemma PlaceNoUri(nodes: seq<Node>, n: Node, rootPath: string)
    requires n.uri.None?
    ensures Structure(nodes + [n], rootPath) == Structure(nodes, rootPath)
  {
    assert (nodes + [n])[..|nodes|] == nodes;
  }

  // ----- Folders are made only when a node needs them -----

  /** Every bucket and every folder below `d` holds something. */
  predicate Lazy(d: Dir)
    decreases d, 1
  {
    forall i :: 0 <= i < |d.entries| ==> LazyEntry(d.entries[i])
  }

  predicate LazyEntry(e: Entry)
    decreases e, 0
  {
    match e
    case Files(ns) => ns != []
    case Sub(_, sub) => sub.entries != [] && Lazy(sub)
  }

  lemma AddFileLazy(d: Dir, n: Node)
    requires Lazy(d)
    ensures Lazy(AddFile(d, n)) && AddFile(d, n).entries != []
  {
    var r := AddFile(d, n);
    forall i | 0 <= i < |r.entries| ensures LazyEntry(r.entries[i]) {
      if i < |d.entries| && r.entries[i] != d.entries[i] {
        assert r.entries[i].Files? && r.entries[i].nodes != [];
      }
    }
  }

  lemma {:induction false} DescendLazy(d: Dir, names: seq<string>, n: Node)
    requires Lazy(d)
    ensures Lazy(Descend(d, names, n)) && Descend(d, names, n).entries != []
    decreases names
  {
    if names == [] {
      AddFileLazy(d, n);
    } else {
      var r := Descend(d, names, n);
      match FindSub(d.entries, names[0])
      case Some(i) =>
        DescendLazy(d.entries[i].dir, names[1..], n);
        assert LazyEntry(r.entries[i]);
        assert forall j :: 0 <= j < |r.entries| && j != i ==> r.entries[j] == d.entries[j];
      case None =>
        DescendLazy(Dir([]), names[1..], n);
        assert LazyEntry(r.entries[|d.entries|]);
        assert forall j :: 0 <= j < |d.entries| ==> r.entries[j] == d.entries[j];
    }
  }

  /** What the `forEach` builds has no empty folder and no empty bucket. */
  lemma {:induction false} StructureLazy(nodes: seq<Node>, rootPath: string)
    ensures Lazy(Structure(nodes, rootPath))
    decreases |nodes|
  {
    if nodes != [] {
      var last := nodes[|nodes| - 1];
      StructureLazy(nodes[..|nodes| - 1], rootPath);
      if last.uri.Some? {
        DescendLazy(Structure(nodes[..|nodes| - 1], rootPath), FolderNames(last.uri.value, rootPath), last);
      }
    }
  }

  /** Every folder node of a tree has children. */
  predicate Filled(ts: seq<Tree>)
    decreases ts
  {
    forall i :: 0 <= i < |ts| ==> ts[i].Folder? ==> ts[i].children != [] && Filled(ts[i].children)
  }

  lemma FilledAppend(a: seq<Tree>, b: seq<Tree>)
    requires Filled(a) && Filled(b)
    ensures Filled(a + b)
  {
    forall i | 0 <= i < |a + b| && (a + b)[i].Folder?
      ensures (a + b)[i].children != [] && Filled((a + b)[i].children)
    {
      if i < |a| {
        assert (a + b)[i] == a[i];
      } else {
        assert (a + b)[i] == b[i - |a|];
      }
    }
  }

  /** Folders without empty folders or buckets become folder nodes that all have children. */
  lemma {:induction false} MakeTreeFilled(d: Dir, parentId: Option<string>)
    requires Lazy(d)
    ensures Filled(MakeTree(d, parentId))
    ensures d.entries != [] ==> MakeTree(d, parentId) != []
    decreases d, 2
  {
    MakeEntriesFilled(d.entries, parentId);
  }

  lemma {:induction false} MakeEntriesFilled(es: seq<Entry>, parentId: Option<string>)
    requires forall i :: 0 <= i < |es| ==> LazyEntry(es[i])
    ensures Filled(MakeEntries(es, parentId))
    ensures es != [] ==> MakeEntries(es, parentId) != []
    decreases es, 1
  {
    if es != [] {
      MakeEntryFilled(es[0], parentId);
      MakeEntriesFilled(es[1..], parentId);
      FilledAppend(MakeEntry(es[0], parentId), MakeEntries(es[1..], parentId));
    }
  }

  lemma {:induction false} MakeEntryFilled(e: Entry, parentId: Option<string>)
    requires LazyEntry(e)
    ensures Filled(MakeEntry(e, parentId)) && MakeEntry(e, parentId) != []
    decreases e, 0
  {
    match e
    case Files(ns) =>
    case Sub(k, sub) =>
      MakeTreeFilled(sub, Some(IdFor(parentId, k)));
  }

  /** `buildTree` never makes an empty folder. */
  lemma BuildTreeFilled(nodes: seq<Node>, rootPath: string, parentId: Option<string>)
    ensures Filled(MakeTree(Structure(nodes, rootPath), parentId))
  {
    StructureLazy(nodes, rootPath);
    MakeTreeFilled(Structure(nodes, rootPath), parentId);
  }

  // ----- Map keys: each once, in insertion order -----

  /** A key of a folder `Map`: the `FILES` symbol or a folder name. */
  datatype Key = FilesKey | NameKey(name: string)

  function KeyOf(e: Entry): Key {
    match e
    case Files(_) => FilesKey
    case Sub(k, _) => NameKey(k)
  }

  /** `[...map.keys()]`. */
  function Keys(es: seq<Entry>): (ks: seq<Key>)
    ensures |ks| == |es| && forall i :: 0 <= i < |es| ==> ks[i] == KeyOf(es[i])
  {
    seq(|es|, i requires 0 <= i < |es| => KeyOf(es[i]))
  }

  predicate NoDup<T(==)>(xs: seq<T>) {
    forall i, j :: 0 <= i < j < |xs| ==> xs[i] != xs[j]
  }

  /** Every `Map` below `d` has each key once and every `FILES` `Set` each node once. */
  predicate Keyed(d: Dir)
    decreases d, 1
  {
    NoDup(Keys(d.entries)) && forall i :: 0 <= i < |d.entries| ==> KeyedEntry(d.entries[i])
  }

  predicate KeyedEntry(e: Entry)
    decreases e, 0
  {
    match e
    case Files(ns) => NoDup(ns)
    case Sub(_, sub) => Keyed(sub)
  }

  /** Adding to the bucket keeps the keys, appending `FILES` when it is new, and adds a node at most once. */
  lemma AddFileKeys(d: Dir, n: Node)
    ensures var ks := Keys(AddFile(d, n).entries);
      Keys(d.entries) <= ks && |ks| <= |d.entries| + 1
    ensures Keyed(d) ==> Keyed(AddFile(d, n))
  {
    var r := AddFile(d, n);
    match FindFiles(d.entries)
    case None =>
      assert forall i :: 0 <= i < |d.entries| ==> r.entries[i] == d.entries[i];
    case Some(i) =>
      assert forall j :: 0 <= j < |d.entries| && j != i ==> r.entries[j] == d.entries[j];
      assert KeyOf(r.entries[i]) == FilesKey;
      var ns := d.entries[i].nodes;
      if n !in ns && KeyedEntry(d.entries[i]) {
        assert NoDup(ns + [n]);
        assert KeyedEntry(r.entries[i]);
      }
  }

  /** Walking down `names` keeps every `Map`'s keys and their order; a created folder's key goes last. */
  lemma {:induction false} DescendKeys(d: Dir, names: seq<string>, n: Node)
    ensures var ks := Keys(Descend(d, names, n).entries);
      Keys(d.entries) <= ks && |ks| <= |d.entries| + 1
    ensures Keyed(d) ==> Keyed(Descend(d, names, n))
    decreases names
  {
    if names == [] {
      AddFileKeys(d, n);
    } else {
      var r := Descend(d, names, n);
      match FindSub(d.entries, names[0])
      case Some(i) =>
        DescendKeys(d.entries[i].dir, names[1..], n);
        assert forall j :: 0 <= j < |d.entries| && j != i ==> r.entries[j] == d.entries[j];
        assert KeyOf(r.entries[i]) == KeyOf(d.entries[i]);
        assert KeyedEntry(d.entries[i]) ==> KeyedEntry(r.entries[i]);
      case None =>
        DescendKeys(Dir([]), names[1..], n);
        assert forall j :: 0 <= j < |d.entries| ==> r.entries[j] == d.entries[j];
        assert KeyOf(r.entries[|d.entries|]) == NameKey(names[0]);
        assert KeyedEntry(r.entries[|d.entries|]);
    }
  }

  /** The `Map`s `buildTree` fills have each key once and each node once per `Set`. */
  lemma {:induction false} StructureKeyed(nodes: seq<Node>, rootPath: string)
    ensures Keyed(Structure(nodes, rootPath))
    decreases |nodes|
  {
    if nodes != [] {
      var last := nodes[|nodes| - 1];
      StructureKeyed(nodes[..|nodes| - 1], rootPath);
      if last.uri.Some? {
        DescendKeys(Structure(nodes[..|nodes| - 1], rootPath), FolderNames(last.uri.value, rootPath), last);
      }
    }
  }

  // ----- Which nodes end up where -----

  /** `d` holds `m` in some bucket at some depth. */
  predicate Holds(d: Dir, m: Node)
    decreases d, 1
  {
    exists i :: 0 <= i < |d.entries| && EntryHolds(d.entries[i], m)
  }

  predicate EntryHolds(e: Entry, m: Node)
    decreases e, 0
  {
    match e
    case Files(ns) => m in ns
    case Sub(_, sub) => Holds(sub, m)
  }

  lemma AddFileHolds(d: Dir, n: Node, m: Node)
    ensures Holds(AddFile(d, n), m) <==> Holds(d, m) || m == n
  {
    var r := AddFile(d, n);
    match FindFiles(d.entries)
    case None =>
      assert EntryHolds(r.entries[|d.entries|], n);
      assert forall i :: 0 <= i < |d.entries| ==> r.entries[i] == d.entries[i];
    case Some(i) =>
      var ns := d.entries[i].nodes;
      if n !in ns {
        assert forall j :: 0 <= j < |d.entries| && j != i ==> r.entries[j] == d.entries[j];
        assert EntryHolds(r.entries[i], m) <==> m in ns || m == n;
      } else {
        assert EntryHolds(d.entries[i], n);
      }
  }

  /** Placing `n` under any folder path adds `n` and nothing else. */
  lemma {:induction false} DescendHolds(d: Dir, names: seq<string>, n: Node, m: Node)
    ensures Holds(Descend(d, names, n), m) <==> Holds(d, m) || m == n
    decreases names
  {
    if names == [] {
      AddFileHolds(d, n, m);
    } else {
      var r := Descend(d, names, n);
      match FindSub(d.entries, names[0])
      case Some(i) =>
        DescendHolds(d.entries[i].dir, names[1..], n, m);
        assert forall j :: 0 <= j < |d.entries| && j != i ==> r.entries[j] == d.entries[j];
        assert EntryHolds(r.entries[i], m) <==> EntryHolds(d.entries[i], m) || m == n;
      case None =>
        DescendHolds(Dir([]), names[1..], n, m);
        assert forall j :: 0 <= j < |d.entries| ==> r.entries[j] == d.entries[j];
        assert EntryHolds(r.entries[|d.entries|], m) <==> m == n;
    }
  }

  /** The folders hold exactly the nodes that have a resource. */
  lemma {:induction false} StructureHolds(nodes: seq<Node>, rootPath: string, m: Node)
    ensures Holds(Structure(nodes, rootPath), m) <==> m in nodes && m.uri.Some?
    decreases |nodes|
  {
    if nodes != [] {
      var init := nodes[..|nodes| - 1];
      var last := nodes[|nodes| - 1];
      StructureHolds(init, rootPath, m);
      assert nodes == init + [last];
      if last.uri.Some? {
        DescendHolds(Structure(init, rootPath), FolderNames(last.uri.value, rootPath), last, m);
      }
    }
  }

  /** The nodes a tree shows, folder contents in place, in display order. */
  function LeafList(ts: seq<Tree>): seq<Node>
    decreases ts
  {
    if ts == [] then []
    else
      (match ts[0] case Leaf(n) => [n] case Folder(_, cs, _) => LeafList(cs)) + LeafList(ts[1..])
  }

  lemma {:induction false} LeafListAppend(a: seq<Tree>, b: seq<Tree>)
    ensures LeafList(a + b) == LeafList(a) + LeafList(b)
    decreases |a|
  {
    if a != [] {
      assert (a + b)[1..] == a[1..] + b;
      LeafListAppend(a[1..], b);
    } else {
      assert a + b == b;
    }
  }

  lemma {:induction false} LeafListLeaves(ns: seq<Node>)
    ensures LeafList(Leaves(ns)) == ns
    decreases |ns|
  {
    if ns != [] {
      LeafListLeaves(ns[1..]);
      assert Leaves(ns)[1..] == Leaves(ns[1..]);
    }
  }

  /** `makeTree` keeps every node of every bucket, and adds none. */
  lemma {:induction false} MakeTreeHolds(d: Dir, parentId: Option<string>, m: Node)
    ensures m in LeafList(MakeTree(d, parentId)) <==> Holds(d, m)
    decreases d, 2
  {
    MakeEntriesHolds(d.entries, parentId, m);
  }

  lemma {:induction false} MakeEntriesHolds(es: seq<Entry>, parentId: Option<string>, m: Node)
    ensures m in LeafList(MakeEntries(es, parentId)) <==> exists i :: 0 <= i < |es| && EntryHolds(es[i], m)
    decreases es, 1
  {
    if es != [] {
      MakeEntryHolds(es[0], parentId, m);
      MakeEntriesHolds(es[1..], parentId, m);
      LeafListAppend(MakeEntry(es[0], parentId), MakeEntries(es[1..], parentId));
      if exists i :: 0 <= i < |es| && EntryHolds(es[i], m) {
        var i :| 0 <= i < |es| && EntryHolds(es[i], m);
        if i > 0 {
          assert es[1..][i - 1] == es[i];
        }
      }
      if exists i :: 0 <= i < |es[1..]| && EntryHolds(es[1..][i], m) {
        var i :| 0 <= i < |es[1..]| && EntryHolds(es[1..][i], m);
        assert es[1..][i] == es[i + 1];
      }
    }
  }

  lemma {:induction false} MakeEntryHolds(e: Entry, parentId: Option<string>, m: Node)
    ensures m in LeafList(MakeEntry(e, parentId)) <==> EntryHolds(e, m)
    decreases e, 0
  {
    match e
    case Files(ns) =>
      LeafListLeaves(ns);
    case Sub(k, sub) =>
      MakeTreeHolds(sub, Some(IdFor(parentId, k)), m);
      MakeEntryFolder(k, sub, parentId);
  }

  lemma MakeEntryFolder(k: string, sub: Dir, parentId: Option<string>)
    ensures LeafList(MakeEntry(Sub(k, sub), parentId)) == LeafList(MakeTree(sub, Some(IdFor(parentId, k))))
  {
    var cs := MakeTree(sub, Some(IdFor(parentId, k)));
    assert LeafList(MakeEntry(Sub(k, sub), parentId)) == LeafList(cs) + LeafList([]);
  }

  // ----- Each node once -----

  /**
   * Every bucket of `d` that holds `m` lies at folder path `path` below `d`:
   * a node is only ever put in one place.
   */
  predicate Along(d: Dir, path: seq<string>, m: Node)
    decreases d, 1
  {
    forall i :: 0 <= i < |d.entries| && EntryHolds(d.entries[i], m) ==> EntryAlong(d.entries[i], path, m)
  }

  predicate EntryAlong(e: Entry, path: seq<string>, m: Node)
    decreases e, 0
  {
    match e
    case Files(_) => path == []
    case Sub(k, sub) => path != [] && path[0] == k && Along(sub, path[1..], m)
  }

  lemma AddFileAlong(d: Dir, n: Node, m: Node, path: seq<string>)
    requires Along(d, path, m) && (m == n ==> path == [])
    ensures Along(AddFile(d, n), path, m)
  {
    var r := AddFile(d, n);
    forall i | 0 <= i < |r.entries| && EntryHolds(r.entries[i], m)
      ensures EntryAlong(r.entries[i], path, m)
    {
      if i < |d.entries| && r.entries[i] != d.entries[i] {
        assert r.entries[i].Files? && d.entries[i].Files?;
        if m != n {
          assert EntryHolds(d.entries[i], m);
        }
      }
    }
  }

  /** Placing `n` along `names` keeps every other node where it was, and `n` only along `names`. */
  lemma {:induction false} DescendAlong(d: Dir, names: seq<string>, n: Node, m: Node, path: seq<string>)
    requires Along(d, path, m) && (m == n ==> path == names)
    ensures Along(Descend(d, names, n), path, m)
    decreases names
  {
    if names == [] {
      AddFileAlong(d, n, m, path);
    } else {
      var r := Descend(d, names, n);
      match FindSub(d.entries, names[0])
      case Some(i) =>
        var sub := d.entries[i].dir;
        assert forall j :: 0 <= j < |d.entries| && j != i ==> r.entries[j] == d.entries[j];
        if EntryHolds(r.entries[i], m) {
          DescendHolds(sub, names[1..], n, m);
          if EntryHolds(d.entries[i], m) {
            assert EntryAlong(d.entries[i], path, m);
          } else {
            assert m == n;
            UnheldAlong(sub, path[1..], m);
          }
          DescendAlong(sub, names[1..], n, m, path[1..]);
        }
      case None =>
        assert forall j :: 0 <= j < |d.entries| ==> r.entries[j] == d.entries[j];
        if EntryHolds(r.entries[|d.entries|], m) {
          DescendHolds(Dir([]), names[1..], n, m);
          DescendAlong(Dir([]), names[1..], n, m, names[1..]);
        }
    }
  }

  lemma UnheldAlong(d: Dir, path: seq<string>, m: Node)
    requires !Holds(d, m)
    ensures Along(d, path, m)
  {
  }

  /** The folder path a node is filed under; a node without a resource has none. */
  function PathOf(n: Node, rootPath: string): seq<string> {
    match n.uri
    case None => []
    case Some(path) => FolderNames(path, rootPath)
  }

  /** After the `forEach`, every node sits only under its own folder path. */
  lemma {:induction false} StructureAlong(nodes: seq<Node>, rootPath: string, m: Node)
    ensures Along(Structure(nodes, rootPath), PathOf(m, rootPath), m)
    decreases |nodes|
  {
    if nodes != [] {
      var last := nodes[|nodes| - 1];
      StructureAlong(nodes[..|nodes| - 1], rootPath, m);
      if last.uri.Some? {
        DescendAlong(Structure(nodes[..|nodes| - 1], rootPath), FolderNames(last.uri.value, rootPath), last, m, PathOf(m, rootPath));
      }
    }
  }

  /** With keys unique and each node along one path, `makeTree` shows each node once. */
  lemma {:induction false} MakeTreeOnce(d: Dir, parentId: Option<string>, path: Node -> seq<string>, depth: nat)
    requires Keyed(d)
    requires forall m :: Holds(d, m) ==> depth <= |path(m)| && Along(d, path(m)[depth..], m)
    ensures NoDup(LeafList(MakeTree(d, parentId)))
    decreases d, 2
  {
    MakeEntriesOnce(d.entries, parentId, path, depth);
  }

  lemma {:induction false} MakeEntriesOnce(es: seq<Entry>, parentId: Option<string>, path: Node -> seq<string>, depth: nat)
    requires NoDup(Keys(es)) && forall i :: 0 <= i < |es| ==> KeyedEntry(es[i])
    requires forall i, m :: 0 <= i < |es| && EntryHolds(es[i], m) ==>
      depth <= |path(m)| && EntryAlong(es[i], path(m)[depth..], m)
    ensures NoDup(LeafList(MakeEntries(es, parentId)))
    decreases es, 1
  {
    if es != [] {
      var head := LeafList(MakeEntry(es[0], parentId));
      var tail := LeafList(MakeEntries(es[1..], parentId));
      MakeEntryOnce(es[0], parentId, path, depth);
      assert Keys(es[1..]) == Keys(es)[1..];
      assert forall i, m :: 0 <= i < |es[1..]| && EntryHolds(es[1..][i], m) ==> EntryHolds(es[i + 1], m);
      MakeEntriesOnce(es[1..], parentId, path, depth);
      LeafListAppend(MakeEntry(es[0], parentId), MakeEntries(es[1..], parentId));
      forall x, y | 0 <= x < |head| && 0 <= y < |tail| ensures head[x] != tail[y] {
        if head[x] == tail[y] {
          var m := head[x];
          MakeEntryHolds(es[0], parentId, m);
          MakeEntriesHolds(es[1..], parentId, m);
          assert false;
        }
      }
      NoDupAppend(head, tail);
    }
  }

  lemma NoDupAppend<T>(a: seq<T>, b: seq<T>)
    requires NoDup(a) && NoDup(b)
    requires forall x, y :: 0 <= x < |a| && 0 <= y < |b| ==> a[x] != b[y]
    ensures NoDup(a + b)
  {
    forall i, j | 0 <= i < j < |a + b| ensures (a + b)[i] != (a + b)[j] {
      if j < |a| {
        assert (a + b)[i] == a[i] && (a + b)[j] == a[j];
      } else if i >= |a| {
        assert (a + b)[i] == b[i - |a|] && (a + b)[j] == b[j - |a|];
      } else {
        assert (a + b)[i] == a[i] && (a + b)[j] == b[j - |a|];
      }
    }
  }

  lemma {:induction false} MakeEntryOnce(e: Entry, parentId: Option<string>, path: Node -> seq<string>, depth: nat)
    requires KeyedEntry(e)
    requires forall m :: EntryHolds(e, m) ==> depth <= |path(m)| && EntryAlong(e, path(m)[depth..], m)
    ensures NoDup(LeafList(MakeEntry(e, parentId)))
    decreases e, 0
  {
    match e
    case Files(ns) =>
      LeafListLeaves(ns);
    case Sub(k, sub) =>
      forall m | Holds(sub, m) ensures depth + 1 <= |path(m)| && Along(sub, path(m)[depth + 1..], m) {
        assert EntryHolds(e, m);
        assert path(m)[depth..][1..] == path(m)[depth + 1..];
      }
      MakeTreeOnce(sub, Some(IdFor(parentId, k)), path, depth + 1);
      MakeEntryFolder(k, sub, parentId);
  }

  /**
   * What `buildTree` returns shows exactly the input nodes that have a
   * resource, each once.
   */
  lemma BuildTreeLeaves(nodes: seq<Node>, rootPath: string, parentId: Option<string>)
    ensures var leaves := LeafList(MakeTree(Structure(nodes, rootPath), parentId));
      NoDup(leaves) && forall m :: m in leaves <==> m in nodes && m.uri.Some?
  {
    var d := Structure(nodes, rootPath);
    forall m ensures m in LeafList(MakeTree(d, parentId)) <==> m in nodes && m.uri.Some? {
      StructureHolds(nodes, rootPath, m);
      MakeTreeHolds(d, parentId, m);
    }
    StructureKeyed(nodes, rootPath);
    var path := (m: Node) => PathOf(m, rootPath);
    forall m | Holds(d, m) ensures 0 <= |path(m)| && Along(d, path(m)[0..], m) {
      StructureAlong(nodes, rootPath, m);
      assert path(m)[0..] == PathOf(m, rootPath);
    }
    MakeTreeOnce(d, parentId, path, 0);
  }

  // ----- Everything directly under the root -----

  /** The input nodes that have a resource, each where it first comes. */
  function Present(nodes: seq<Node>): seq<Node>
    decreases |nodes|
  {
    if nodes == [] then []
    else
      var before := Present(nodes[..|nodes| - 1]);
      var n := nodes[|nodes| - 1];
      if n.uri.Some? && n !in before then before + [n] else before
  }

  lemma {:induction false} PresentNodes(nodes: seq<Node>)
    ensures NoDup(Present(nodes))
    ensures forall m :: m in Present(nodes) <==> m in nodes && m.uri.Some?
    decreases |nodes|
  {
    if nodes != [] {
      var init := nodes[..|nodes| - 1];
      PresentNodes(init);
      assert nodes == init + [nodes[|nodes| - 1]];
    }
  }

  /** A root `Map` holding only the `FILES` bucket `ns`, or nothing. */
  function Flat(ns: seq<Node>): Dir {
    if ns == [] then Dir([]) else Dir([Files(ns)])
  }

  lemma {:induction false} FlatStructure(nodes: seq<Node>, rootPath: string)
    requires forall i :: 0 <= i < |nodes| ==> PathOf(nodes[i], rootPath) == []
    ensures Structure(nodes, rootPath) == Flat(Present(nodes))
    decreases |nodes|
  {
    if nodes != [] {
      var init := nodes[..|nodes| - 1];
      var n := nodes[|nodes| - 1];
      FlatStructure(init, rootPath);
      var ns := Present(init);
      if n.uri.Some? {
        assert FolderNames(n.uri.value, rootPath) == [];
        if ns == [] {
          assert AddFile(Dir([]), n) == Flat([n]);
          assert Present(nodes) == [] + [n] == [n];
        } else {
          assert FindFiles(Flat(ns).entries) == Some(0);
          assert n !in ns ==> AddFile(Flat(ns), n) == Flat(ns + [n]);
        }
      }
    }
  }

  /** When every node lies directly under the root, `buildTree` returns them in input order, once each, and no folder. */
  lemma FlatTree(nodes: seq<Node>, rootPath: string, parentId: Option<string>)
    requires forall i :: 0 <= i < |nodes| ==> PathOf(nodes[i], rootPath) == []
    ensures MakeTree(Structure(nodes, rootPath), parentId) == Leaves(Present(nodes))
  {
    FlatStructure(nodes, rootPath);
    var ns := Present(nodes);
    if ns != [] {
      assert MakeEntries([Files(ns)], parentId) == Leaves(ns) + [];
    }
  }

  // ----- Folder ids -----

  /** Each folder's contents get `prefix + "->" + name`, with its own id as the prefix below it. */
  predicate IdsFollow(ts: seq<Tree>, prefix: string)
    decreases ts
  {
    forall i :: 0 <= i < |ts| && ts[i].Folder? ==>
      ts[i].contentsId == prefix + "->" + ts[i].name && IdsFollow(ts[i].children, ts[i].contentsId)
  }

  lemma IdsFollowAppend(a: seq<Tree>, b: seq<Tree>, prefix: string)
    requires IdsFollow(a, prefix) && IdsFollow(b, prefix)
    ensures IdsFollow(a + b, prefix)
  {
    forall i | 0 <= i < |a + b| && (a + b)[i].Folder?
      ensures (a + b)[i].contentsId == prefix + "->" + (a + b)[i].name
        && IdsFollow((a + b)[i].children, (a + b)[i].contentsId)
    {
      if i < |a| {
        assert (a + b)[i] == a[i];
      } else {
        assert (a + b)[i] == b[i - |a|];
      }
    }
  }

  /** `makeTree` chains the ids from `parentId || ""` down through every folder. */
  lemma {:induction false} MakeTreeIds(d: Dir, parentId: Option<string>)
    ensures IdsFollow(MakeTree(d, parentId), Prefix(parentId))
    decreases d, 2
  {
    MakeEntriesIds(d.entries, parentId);
  }

  lemma {:induction false} MakeEntriesIds(es: seq<Entry>, parentId: Option<string>)
    ensures IdsFollow(MakeEntries(es, parentId), Prefix(parentId))
    decreases es, 1
  {
    if es != [] {
      MakeEntryIds(es[0], parentId);
      MakeEntriesIds(es[1..], parentId);
      IdsFollowAppend(MakeEntry(es[0], parentId), MakeEntries(es[1..], parentId), Prefix(parentId));
    }
  }

  lemma {:induction false} MakeEntryIds(e: Entry, parentId: Option<string>)
    ensures IdsFollow(MakeEntry(e, parentId), Prefix(parentId))
    decreases e, 0
  {
    match e
    case Files(ns) =>
    case Sub(k, sub) =>
      MakeTreeIds(sub, Some(IdFor(parentId, k)));
  }

  /** The number of `>` in `s`. */
  function Arrows(s: string): nat {
    |s| - |RemoveArrows(s)|
  }

  function RemoveArrows(s: string): (r: string)
    ensures |r| <= |s|
  {
    if s == [] then []
    else (if s[0] == '>' then [] else [s[0]]) + RemoveArrows(s[1..])
  }

  lemma {:induction false} RemoveArrowsAppend(a: string, b: string)
    ensures RemoveArrows(a + b) == RemoveArrows(a) + RemoveArrows(b)
    decreases |a|
  {
    if a != [] {
      assert (a + b)[1..] == a[1..] + b;
      RemoveArrowsAppend(a[1..], b);
    } else {
      assert a + b == b;
    }
  }

  lemma {:induction false} RemoveArrowsFree(s: string)
    requires '>' !in s
    ensures RemoveArrows(s) == s
    decreases |s|
  {
    if s != [] {
      RemoveArrowsFree(s[1..]);
    }
  }

  /**
   * A folder name without `>` adds exactly one `>` to the chain, so the
   * ids of folders at different depths differ even when the names agree.
   */
  lemma IdArrows(parentId: Option<string>, name: string)
    requires '>' !in name
    ensures Arrows(IdFor(parentId, name)) == Arrows(Prefix(parentId)) + 1
  {
    var p := Prefix(parentId);
    RemoveArrowsAppend(p + "->", name);
    RemoveArrowsAppend(p, "->");
    RemoveArrowsFree(name);
    assert RemoveArrows("->") == "-";
  }
}
