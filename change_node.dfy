/**
 * `ChangeNode` (src/nodes/change.ts): the tree item of one changed file of a
 * commit. Its root-relative path, label, description and id are derived
 * from the change's URI path and the repository root; its constructor also
 * records the change's status in the shared change decorator.
 */
module ChangeNodes {
  import opened Wrappers
  import opened JsStrings
  import opened Decoration
  import BuildTree

  /**
   * The git status of a change. The four the extension knows by name; every
   * other member of the editor's `Status` enumeration is `OtherStatus`.
   */
  datatype Status = IndexAdded | Modified | Deleted | IndexRenamed | OtherStatus

  /** A change: its URI (as `toString()` gives it), that URI's path, the original URI's path and its status. */
  datatype Change = Change(uri: string, path: string, originalPath: string, status: Status)

  /** `statuses[status]`: the badge and name of a known status, nothing for the others. */
  function StatusEntry(status: Status): (r: Option<FileDecoration>)
    ensures r.None? <==> status == OtherStatus
  {
    match status
    case IndexAdded => Some(FileDecoration("\U{1F49A}", "Added"))
    case Modified => Some(FileDecoration("\U{1F49B}", "Modified"))
    case Deleted => Some(FileDecoration("\U{1F494}", "Deleted"))
    case IndexRenamed => Some(FileDecoration("\U{1F499}", "Renamed"))
    case OtherStatus => None
  }

  /** The four known statuses are told apart by their badges. */
  lemma StatusBadgesDistinct(a: Status, b: Status)
    requires StatusEntry(a).Some? && StatusEntry(b).Some? && a != b
    ensures StatusEntry(a).value.badge != StatusEntry(b).value.badge
  {
  }

  /** `path.replace(`${rootPath}/`, "")`: the first occurrence of the root and a slash removed. */
  function RelPath(path: string, rootPath: string): string {
    ReplaceFirst(path, rootPath + "/", "")
  }

  /** A path below the root becomes the path relative to it. */
  lemma RelPathBelowRoot(rootPath: string, rest: string)
    ensures RelPath(rootPath + "/" + rest, rootPath) == rest
  {
    ReplaceLeadingPrefix(rootPath + "/", rest);
  }

  /** A path where `rootPath/` does not occur is kept whole. */
  lemma RelPathElsewhere(path: string, rootPath: string)
    requires forall k :: !OccursAt(path, rootPath + "/", k)
    ensures RelPath(path, rootPath) == path
  {
  }

  /** `relPath.split("/").pop()`: the last segment. */
  function Label(relPath: string): string {
    var parts := Split(relPath, '/');
    parts[|parts| - 1]
  }

  /** `parts.join("/")` after the pop: the segments before the last. */
  function Description(relPath: string): string {
    var parts := Split(relPath, '/');
    Join(parts[..|parts| - 1], "/")
  }

  /**
   * The label is the name after the last `/`, and the description the
   * directory before it: `description + "/" + label` is the path again, and
   * a path with no `/` is all label and no description.
   */
  lemma LabelDescription(relPath: string)
    ensures '/' !in Label(relPath)
    ensures '/' in relPath ==> Description(relPath) + "/" + Label(relPath) == relPath
    ensures '/' !in relPath ==> Description(relPath) == "" && Label(relPath) == relPath
  {
    var parts := Split(relPath, '/');
    SplitPiecesFree(relPath, '/');
    JoinSplit(relPath, '/');
    var init, last := parts[..|parts| - 1], parts[|parts| - 1];
    assert '/' !in last;
    assert init + [last] == parts;
    if init == [] {
      JoinOne(last, relPath);
    } else {
      JoinMany(init, last, relPath);
    }
  }

  /** One piece joins to itself. */
  lemma JoinOne(last: string, s: string)
    requires Join([] + [last], "/") == s
    ensures s == last && Join([], "/") == ""
  {
    assert [] + [last] == [last];
  }

  /** Several pieces join to the join of all but the last, a `/`, and the last. */
  lemma JoinMany(init: seq<string>, last: string, s: string)
    requires init != [] && Join(init + [last], "/") == s
    ensures s == Join(init, "/") + "/" + last && '/' in s
  {
    JoinSnoc(init, last, "/");
    assert s[|Join(init, "/")|] == '/';
  }

  /**
   * The tree item of one change. The constructor's inputs are kept; every
   * other field is defined from them, as the constructor assigns it.
   */
  class ChangeNode {
    const change: Change
    /** `change.commit.repository.rootUri.path`. */
    const rootPath: string
    /** `options.parentId`. */
    const parentId: Option<string>

    const relPath: string := RelPath(change.path, rootPath)
    const originalRelPath: string := RelPath(change.originalPath, rootPath)
    const id: string := BuildTree.IdFor(parentId, relPath)
    /** The `label` of the tree item (`label` is a reserved word here). */
    const labelText: string := Label(relPath)
    const description: string := Description(relPath)
    /** The change's URI; `buildTree` reads its path. */
    const resourceUri: string := change.uri
    const tooltip: string := relPath

    /** The field assignments of the constructor, the decorator write aside. */
    constructor (change: Change, rootPath: string, parentId: Option<string>)
      ensures this.change == change && this.rootPath == rootPath && this.parentId == parentId
    {
      this.change := change;
      this.rootPath := rootPath;
      this.parentId := parentId;
    }
  }

  /** The node `new ChangeNode(change, manager, { parentId })` makes below the root `rootPath`. */
  predicate ChangeNodeOf(node: ChangeNode, change: Change, rootPath: string, parentId: Option<string>) {
    node.change == change && node.rootPath == rootPath && node.parentId == parentId
  }

  /**
   * `new ChangeNode(change, manager, { parentId })`. An unknown status makes
   * `status.letter` throw before the decorator is touched; otherwise the
   * change decorator gains the status's badge and name under the change's URI
   * and announces it once, and the worktree decorator is left alone.
   */
  method NewChangeNode(change: Change, rootPath: string, parentId: Option<string>, ds: Decorators)
      returns (r: Result<ChangeNode, string>)
    requires ds.worktree != ds.change
    modifies ds.change
    ensures r.Err? <==> change.status == OtherStatus
    ensures r.Err? ==> ds.change.decorations == old(ds.change.decorations) && ds.change.fired == old(ds.change.fired)
    ensures r.Ok? ==> ds.change.decorations == Stored(old(ds.change.decorations), change.uri, StatusEntry(change.status))
    ensures r.Ok? ==> ds.change.fired == old(ds.change.fired) + [change.uri]
    ensures r.Ok? ==> fresh(r.value) && ChangeNodeOf(r.value, change, rootPath, parentId)
    ensures ds.worktree.decorations == old(ds.worktree.decorations) && ds.worktree.fired == old(ds.worktree.fired)
  {
    var entry := StatusEntry(change.status);
    if entry.None? {
      return Err("TypeError");
    }
    ds.change.Set(change.uri, entry);
    var node := new ChangeNode(change, rootPath, parentId);
    r := Ok(node);
  }

  /** After the node is made, the decorator shows the change's status for its URI. */
  lemma DecoratedWithStatus(store: map<string, FileDecoration>, change: Change)
    requires change.status != OtherStatus
    ensures Lookup(Stored(store, change.uri, StatusEntry(change.status)), change.uri) == StatusEntry(change.status)
    ensures Lookup(Stored(store, change.uri, StatusEntry(change.status)), change.uri).Some?
  {
    LookupStored(store, change.uri, StatusEntry(change.status));
  }

  /** Two changes below one parent with different relative paths get different ids. */
  lemma IdsDistinct(parentId: Option<string>, a: string, b: string)
    requires a != b
    ensures BuildTree.IdFor(parentId, a) != BuildTree.IdFor(parentId, b)
  {
    var p := BuildTree.Prefix(parentId) + "->";
    assert BuildTree.IdFor(parentId, a)[|p|..] == a;
    assert BuildTree.IdFor(parentId, b)[|p|..] == b;
  }
}
