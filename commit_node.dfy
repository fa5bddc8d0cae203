/**
 * `CommitNode` (src/nodes/commit.ts): the tree item of one commit. Its id
 * chains the parent's id and the hash; it is a merge commit when parents
 * remain after the manager took the first one off; its avatar comes from
 * the author's email and the host of the repository's remote; its children
 * are the merged commits or the commit's changes, flat or as a folder tree.
 *
 * The manager's awaited results (the merged commits, the changes, the
 * remotes) are parameters. The relative time and the tooltip text are left
 * out: they need the clock and `Intl`.
 */
module CommitNodes {
  import opened Wrappers
  import opened JsStrings
  import opened CommitLog
  import opened Avatars
  import opened Decoration
  import opened ChangeNodes
  import BuildTree

  // ----- remoteHost -----

  /** A remote of the repository: its name and its fetch URL, if any. */
  datatype Remote = Remote(name: string, fetchUrl: Option<string>)

  /** The index of the first remote named `origin`. */
  function FindOrigin(remotes: seq<Remote>): (r: Option<nat>)
    ensures r.Some? ==> r.value < |remotes| && remotes[r.value].name == "origin"
    ensures r.Some? ==> forall k :: 0 <= k < r.value ==> remotes[k].name != "origin"
    ensures r.None? ==> forall k :: 0 <= k < |remotes| ==> remotes[k].name != "origin"
  {
    if remotes == [] then None
    else if remotes[0].name == "origin" then Some(0)
    else match FindOrigin(remotes[1..])
      case None => None
      case Some(j) => Some(j + 1)
  }

  /** `remotes.find(r => r.name === "origin") || remotes[0]`, then `remote.fetchUrl || ""`, or `""` with no remote. */
  function RemoteUrl(remotes: seq<Remote>): string {
    var remote := match FindOrigin(remotes)
      case Some(i) => Some(remotes[i])
      case None => if remotes == [] then None else Some(remotes[0]);
    match remote
    case None => ""
    case Some(r) => r.fetchUrl.GetOr("")
  }

  /** The URL read is the first `origin`'s, else the first remote's; no remote or no URL reads as `""`. */
  lemma RemoteUrlChoice(remotes: seq<Remote>)
    ensures remotes == [] ==> RemoteUrl(remotes) == ""
    ensures FindOrigin(remotes).Some? ==> RemoteUrl(remotes) == remotes[FindOrigin(remotes).value].fetchUrl.GetOr("")
    ensures (forall k :: 0 <= k < |remotes| ==> remotes[k].name != "origin") && remotes != []
      ==> RemoteUrl(remotes) == remotes[0].fetchUrl.GetOr("")
  {
  }

  predicate IsLower(c: char) { 'a' <= c <= 'z' }

  /** `[a-z0-9+\-]`. */
  predicate HostChar(c: char) { IsLower(c) || '0' <= c <= '9' || c == '+' || c == '-' }

  /** A string the group `(?<host>[a-z][a-z0-9+\-]+)` can match. */
  predicate ValidHost(h: string) {
    |h| >= 2 && IsLower(h[0]) && forall k :: 0 <= k < |h| ==> HostChar(h[k])
  }

  /** The length of the longest run of host characters at the start of `s`. */
  function HostRun(s: string): (n: nat)
    ensures n <= |s| && (forall k :: 0 <= k < n ==> HostChar(s[k])) && (n < |s| ==> !HostChar(s[n]))
  {
    if s != [] && HostChar(s[0]) then 1 + HostRun(s[1..]) else 0
  }

  /** `(\/\/|@)` at `i`: the index just past it. */
  function DelimiterEnd(s: string, i: nat): (j: Option<nat>)
    ensures j.Some? ==> i < j.value <= |s| && (s[i..j.value] == "//" || s[i..j.value] == "@")
  {
    if i + 1 < |s| && s[i] == '/' && s[i + 1] == '/' then Some(i + 2)
    else if i < |s| && s[i] == '@' then Some(i + 1)
    else None
  }

  /**
   * The match of the pattern starting at `i`, if any: the delimiter, then
   * the greedy host run, which must hold a lower-case letter and at least one
   * more host character.
   */
  function HostAt(s: string, i: nat): (r: Option<string>)
    ensures r.Some? ==> ValidHost(r.value)
    ensures r.Some? ==> DelimiterEnd(s, i).Some?
  {
    match DelimiterEnd(s, i)
    case None => None
    case Some(j) =>
      var n := HostRun(s[j..]);
      if n >= 2 && IsLower(s[j]) then Some(s[j..j + n]) else None
  }

  /** The leftmost start at or after `from` where the pattern matches. */
  function FirstHost(s: string, from: nat): (r: Option<nat>)
    ensures r.Some? ==> from <= r.value < |s| && HostAt(s, r.value).Some?
    ensures r.Some? ==> forall k :: from <= k < r.value ==> HostAt(s, k).None?
    ensures r.None? ==> forall k :: from <= k < |s| ==> HostAt(s, k).None?
    decreases |s| - from
  {
    if from >= |s| then None
    else if HostAt(s, from).Some? then Some(from)
    else FirstHost(s, from + 1)
  }

  /** A host found at `i` is the maximal host run right after the delimiter there. */
  lemma HostAtPosition(s: string, i: nat)
    requires HostAt(s, i).Some?
    ensures var j, h := DelimiterEnd(s, i).value, HostAt(s, i).value;
      j + |h| <= |s| && s[j..j + |h|] == h && (j + |h| == |s| || !HostChar(s[j + |h|]))
  {
    var j := DelimiterEnd(s, i).value;
    var n := HostRun(s[j..]);
    assert n < |s[j..]| ==> s[j..][n] == s[j + n];
  }

  /** `remoteHost` on a URL: the `host` group of the leftmost match, or nothing. */
  function HostOf(url: string): (r: Option<string>)
    ensures r.Some? ==> ValidHost(r.value)
  {
    match FirstHost(url, 0)
    case None => None
    case Some(i) => HostAt(url, i)
  }

  /** The `remoteHost` getter. */
  function RemoteHost(remotes: seq<Remote>): Option<string> {
    HostOf(RemoteUrl(remotes))
  }

  /** A host run preceded by its delimiter is read whole. */
  lemma {:induction false} HostRunOf(host: string, rest: string)
    requires forall k :: 0 <= k < |host| ==> HostChar(host[k])
    requires rest == [] || !HostChar(rest[0])
    ensures HostRun(host + rest) == |host|
    decreases |host|
  {
    if host == [] {
      assert host + rest == rest;
    } else {
      assert (host + rest)[1..] == host[1..] + rest;
      HostRunOf(host[1..], rest);
    }
  }

  /**
   * The host is the valid host right after the first `//` or `@`, read up to
   * the first character that cannot be part of a host. So
   * `git@github.com:owner/repo` gives `github` and
   * `https://github.com/owner/repo` gives `github`, while
   * `ssh://git@github.com/owner/repo` gives `git`.
   */
  lemma HostAfterPrefix(prefix: string, delimiter: string, host: string, rest: string)
    requires delimiter == "//" || delimiter == "@"
    requires forall k :: 0 <= k < |prefix| ==> prefix[k] != '/' && prefix[k] != '@'
    requires ValidHost(host)
    requires rest == [] || !HostChar(rest[0])
    ensures HostOf(prefix + delimiter + host + rest) == Some(host)
  {
    var s := prefix + delimiter + host + rest;
    PrefixNoMatch(s, prefix);
    var j := |prefix| + |delimiter|;
    assert DelimiterEnd(s, |prefix|) == Some(j);
    assert s[j..] == host + rest;
    HostAtAfter(s, |prefix|, j, host, rest);
    FirstHostAt(s, |prefix|);
  }

  /** The leftmost match is at `i` when one starts there and none starts before. */
  lemma FirstHostAt(s: string, i: nat)
    requires HostAt(s, i).Some? && forall k :: 0 <= k < i ==> HostAt(s, k).None?
    ensures FirstHost(s, 0) == Some(i)
  {
    var r := FirstHost(s, 0);
    assert r.Some?;
    assert !(r.value < i);
    assert !(r.value > i);
  }

  /** No match starts inside a prefix free of `/` and `@`. */
  lemma PrefixNoMatch(s: string, prefix: string)
    requires |prefix| <= |s| && s[..|prefix|] == prefix
    requires forall k :: 0 <= k < |prefix| ==> prefix[k] != '/' && prefix[k] != '@'
    ensures forall k :: 0 <= k < |prefix| ==> HostAt(s, k).None?
  {
    forall k | 0 <= k < |prefix| ensures HostAt(s, k).None? {
      assert s[k] == s[..|prefix|][k];
    }
  }

  /** After a delimiter, a valid host followed by a non-host character is the match. */
  lemma HostAtAfter(s: string, i: nat, j: nat, host: string, rest: string)
    requires DelimiterEnd(s, i) == Some(j) && s[j..] == host + rest
    requires ValidHost(host) && (rest == [] || !HostChar(rest[0]))
    ensures HostAt(s, i) == Some(host)
  {
    HostRunOf(host, rest);
    assert s[j..j + |host|] == (host + rest)[..|host|] == host;
  }

  /** A URL with neither `//` nor `@` has no host. */
  lemma NoDelimiterNoHost(url: string)
    requires '@' !in url && forall k :: 0 <= k && k + 1 < |url| ==> !(url[k] == '/' && url[k + 1] == '/')
    ensures HostOf(url) == None
  {
    forall k | 0 <= k < |url| ensures HostAt(url, k).None? {
    }
  }

  // ----- The node -----

  /** The tree item of one commit; `commit.parents` are those left after the manager took the first. */
  class CommitNode {
    const commit: GitCommit
    /** `options.parentId`. */
    const parentId: Option<string>
    /** `options.viewAsTree`, absent read as false. */
    const viewAsTree: bool
    /** The avatar URL shown as the icon, if one was set. */
    const icon: Option<string>

    const id: string := BuildTree.IdFor(parentId, commit.hash)
    const isMergeCommit: bool := |commit.parents| > 0

    /**
     * `getChildren({ showMergeChildren })`, with the manager's answers as
     * parameters: the merged commits when asked for and this is a merge
     * commit, otherwise the changes below this node, as a folder tree when
     * `viewAsTree` is set.
     */
    method GetChildren(showMergeChildren: bool, mergeCommits: seq<GitCommit>, changes: seq<Change>, rootPath: string,
                       remotes: seq<Remote>, avatars: AvatarCache, ds: Decorators)
        returns (r: Result<Children, string>)
      requires ds.worktree != ds.change
      modifies avatars, ds.change
      ensures showMergeChildren && isMergeCommit ==>
        r.Ok? && r.value.MergeChildren? && CommitNodesOf(r.value.commits, mergeCommits, id, viewAsTree)
        && IconsFrom(r.value.commits, mergeCommits, avatars.cache)
      ensures showMergeChildren && isMergeCommit ==>
        (forall e :: e in avatars.cache <==> e in old(avatars.cache) || e in Emails(mergeCommits, |mergeCommits|))
        && (forall e :: e in old(avatars.cache) ==> avatars.cache[e] == old(avatars.cache)[e])
        && (forall e :: e in avatars.cache && e !in old(avatars.cache) ==> avatars.cache[e] == avatars.Compute(e, RemoteHost(remotes)))
        && ds.change.decorations == old(ds.change.decorations) && ds.change.fired == old(ds.change.fired)
      ensures !(showMergeChildren && isMergeCommit) ==>
        avatars.cache == old(avatars.cache)
        && (r.Err? <==> FirstUnknown(changes).Some?)
        && ds.change.decorations == Decorated(old(ds.change.decorations), changes, Reached(changes))
        && ds.change.fired == old(ds.change.fired) + Uris(changes, Reached(changes))
      ensures !(showMergeChildren && isMergeCommit) && r.Ok? && !viewAsTree ==>
        r.value.ChangeList? && ChangeNodesOf(r.value.changes, changes, rootPath, id)
      ensures !(showMergeChildren && isMergeCommit) && r.Ok? && viewAsTree ==>
        r.value.ChangeTree? && ChangeNodesOf(r.value.changes, changes, rootPath, id)
        && r.value.tree == BuildTree.MakeTree(BuildTree.Structure(Indexed(changes), rootPath), Some(id))
      ensures ds.worktree.decorations == old(ds.worktree.decorations) && ds.worktree.fired == old(ds.worktree.fired)
    {
      if showMergeChildren && isMergeCommit {
        var nodes := MakeCommitNodes(mergeCommits, id, viewAsTree, remotes, avatars);
        return Ok(MergeChildren(nodes));
      }
      var made := MakeChangeNodes(changes, rootPath, id, ds);
      if made.Err? {
        return Err(made.error);
      }
      if viewAsTree {
        var tree := BuildTree.Build(Indexed(changes), rootPath, Some(id));
        r := Ok(ChangeTree(made.value, tree));
      } else {
        r := Ok(ChangeList(made.value));
      }
    }

    /** The field assignments of the constructor, the avatar lookup aside. */
    constructor (commit: GitCommit, parentId: Option<string>, viewAsTree: bool, icon: Option<string>)
      ensures this.commit == commit && this.parentId == parentId
      ensures this.viewAsTree == viewAsTree && this.icon == icon
    {
      this.commit := commit;
      this.parentId := parentId;
      this.viewAsTree := viewAsTree;
      this.icon := icon;
    }
  }

  /**
   * `new CommitNode(commit, manager, { viewAsTree, parentId })`: an author
   * email gives an icon from `getAvatarUrl(email, remoteHost)`, which fills
   * the avatar cache on a miss; an empty email gives no icon and no lookup.
   */
  method NewCommitNode(commit: GitCommit, parentId: Option<string>, viewAsTree: bool, remotes: seq<Remote>, avatars: AvatarCache)
      returns (node: CommitNode)
    modifies avatars
    ensures fresh(node) && node.commit == commit && node.parentId == parentId && node.viewAsTree == viewAsTree
    ensures node.icon.Some? <==> commit.authorEmail != ""
    ensures commit.authorEmail == "" ==> avatars.cache == old(avatars.cache)
    ensures commit.authorEmail != "" && commit.authorEmail in old(avatars.cache) ==> node.icon == Some(old(avatars.cache)[commit.authorEmail]) && avatars.cache == old(avatars.cache)
    ensures commit.authorEmail != "" && commit.authorEmail !in old(avatars.cache) ==>
      node.icon == Some(avatars.Compute(commit.authorEmail, RemoteHost(remotes)))
      && avatars.cache == old(avatars.cache)[commit.authorEmail := node.icon.value]
  {
    var icon := None;
    if commit.authorEmail != "" {
      var url := avatars.GetAvatarUrl(commit.authorEmail, RemoteHost(remotes));
      icon := Some(url);
    }
    node := new CommitNode(commit, parentId, viewAsTree, icon);
  }

  /** A remote on a `github` host gives the GitHub avatar of a no-reply author address. */
  lemma GithubRemoteAvatar(remotes: seq<Remote>, avatars: AvatarCache, id: string, name: string)
    requires RemoteHost(remotes) == Some("github")
    requires id != [] && AllDigits(id) && name != [] && '@' !in name
    ensures avatars.Compute(id + "+" + name + "@" + NoreplyDomain, RemoteHost(remotes)) == GithubPrefix + id + "?s=20"
  {
    GithubAsWrittenNoreply(id, name, avatars.encode);
  }

  /** The fetch URL `https://constructor.example.org/r.git` gives the host `constructor`. */
  lemma ConstructorHost()
    ensures RemoteHost([Remote("origin", Some("https:" + "//" + "constructor" + ".example.org/r.git"))]) == Some("constructor")
  {
    var h := "constructor";
    assert forall k :: 0 <= k < |h| ==> IsLower(h[k]);
    HostAfterPrefix("https:", "//", h, ".example.org/r.git");
  }

  /**
   * A remote whose host is `constructor` (as `ConstructorHost` shows one
   * is) selects the inherited `Object` as the avatar source: the icon is
   * the author's email text, where the intended lookup gives the Gravatar
   * URL.
   */
  lemma ConstructorRemoteAvatar(avatars: AvatarCache, remotes: seq<Remote>, email: string)
    requires RemoteHost(remotes) == Some("constructor")
    ensures avatars.Compute(email, RemoteHost(remotes)) == email
    ensures IntendedUrl(email, RemoteHost(remotes), avatars.md5, avatars.encode) == Gravatar(email, avatars.md5)
  {
  }

  // ----- getChildren -----

  /** What `getChildren` resolves to. */
  datatype Children =
    | MergeChildren(commits: seq<CommitNode>)
    | ChangeList(changes: seq<ChangeNode>)
    | ChangeTree(changes: seq<ChangeNode>, tree: seq<BuildTree.Tree>)

  /** The non-empty author emails of `commits`: those the avatar lookup sees. */
  function Emails(commits: seq<GitCommit>, n: nat): set<string>
    requires n <= |commits|
  {
    set k | 0 <= k < n && commits[k].authorEmail != "" :: commits[k].authorEmail
  }

  /** The index of the first change with a status outside the four known ones. */
  function FirstUnknown(changes: seq<Change>): (r: Option<nat>)
    ensures r.Some? ==> r.value < |changes| && changes[r.value].status == OtherStatus
    ensures r.Some? ==> forall k :: 0 <= k < r.value ==> changes[k].status != OtherStatus
    ensures r.None? ==> forall k :: 0 <= k < |changes| ==> changes[k].status != OtherStatus
  {
    if changes == [] then None
    else if changes[0].status == OtherStatus then Some(0)
    else match FirstUnknown(changes[1..])
      case None => None
      case Some(j) => Some(j + 1)
  }

  /** How many change nodes are made before one throws: all of them when none does. */
  function Reached(changes: seq<Change>): (n: nat)
    ensures n <= |changes|
  {
    match FirstUnknown(changes)
    case Some(i) => i
    case None => |changes|
  }

  /** The change decorator's store after the first `n` of `changes`, in order, recorded their statuses. */
  function Decorated(store: map<string, FileDecoration>, changes: seq<Change>, n: nat): map<string, FileDecoration>
    requires n <= |changes|
  {
    if n == 0 then store
    else Stored(Decorated(store, changes, n - 1), changes[n - 1].uri, StatusEntry(changes[n - 1].status))
  }

  /** The URIs of the first `n` of `changes`, in order: the events the change decorator fires for them. */
  function Uris(changes: seq<Change>, n: nat): (us: seq<string>)
    requires n <= |changes|
    ensures |us| == n && forall k :: 0 <= k < n ==> us[k] == changes[k].uri
  {
    if n == 0 then [] else Uris(changes, n - 1) + [changes[n - 1].uri]
  }

  /** The change nodes as `buildTree` sees them: the k-th node, with the path of its change's URI. */
  function Indexed(changes: seq<Change>): (ns: seq<BuildTree.Node>)
    ensures |ns| == |changes|
  {
    seq(|changes|, k requires 0 <= k < |changes| => BuildTree.Node(k, Some(changes[k].path)))
  }

  /** The node `new CommitNode(commit, manager, { viewAsTree, parentId })` makes. */
  predicate CommitNodeOf(node: CommitNode, commit: GitCommit, parentId: string, viewAsTree: bool) {
    node.commit == commit && node.parentId == Some(parentId) && node.viewAsTree == viewAsTree
  }

  /** `commits.map(c => new CommitNode(c, manager, { viewAsTree, parentId }))`. */
  predicate CommitNodesOf(nodes: seq<CommitNode>, commits: seq<GitCommit>, parentId: string, viewAsTree: bool) {
    |nodes| == |commits| && forall k :: 0 <= k < |nodes| ==> CommitNodeOf(nodes[k], commits[k], parentId, viewAsTree)
  }

  /** Each node's icon is the avatar `cache` holds for its commit's author email, and an empty email gives none. */
  predicate IconsFrom(nodes: seq<CommitNode>, commits: seq<GitCommit>, cache: map<string, string>)
    requires |nodes| <= |commits|
  {
    forall k :: 0 <= k < |nodes| ==>
      if commits[k].authorEmail == "" then nodes[k].icon == None
      else commits[k].authorEmail in cache && nodes[k].icon == Some(cache[commits[k].authorEmail])
  }

  /** `changes.map(c => new ChangeNode(c, manager, { parentId }))`. */
  predicate ChangeNodesOf(nodes: seq<ChangeNode>, changes: seq<Change>, rootPath: string, parentId: string) {
    |nodes| == |changes| && forall k :: 0 <= k < |nodes| ==> ChangeNodeOf(nodes[k], changes[k], rootPath, Some(parentId))
  }

  lemma EmailsNext(commits: seq<GitCommit>, n: nat)
    requires n < |commits|
    ensures Emails(commits, n + 1) == Emails(commits, n) + (if commits[n].authorEmail != "" then {commits[n].authorEmail} else {})
  {
    var c := commits[n];
    forall e | e in Emails(commits, n + 1) ensures e in Emails(commits, n) || (c.authorEmail != "" && e == c.authorEmail) {
      var k :| 0 <= k < n + 1 && commits[k].authorEmail != "" && commits[k].authorEmail == e;
    }
  }

  /**
   * The merged commits as nodes below `parentId`, in order. Each author
   * email not yet cached gains the avatar its remote host selects; entries
   * already cached stay as they were.
   */
  method MakeCommitNodes(commits: seq<GitCommit>, parentId: string, viewAsTree: bool, remotes: seq<Remote>, avatars: AvatarCache)
      returns (nodes: seq<CommitNode>)
    modifies avatars
    ensures CommitNodesOf(nodes, commits, parentId, viewAsTree) && IconsFrom(nodes, commits, avatars.cache)
    ensures forall e :: e in avatars.cache <==> e in old(avatars.cache) || e in Emails(commits, |commits|)
    ensures forall e :: e in old(avatars.cache) ==> avatars.cache[e] == old(avatars.cache)[e]
    ensures forall e :: e in avatars.cache && e !in old(avatars.cache) ==> avatars.cache[e] == avatars.Compute(e, RemoteHost(remotes))
  {
    nodes := [];
    ghost var f := e => avatars.Compute(e, RemoteHost(remotes));
    for i := 0 to |commits|
      invariant |nodes| == i && forall k :: 0 <= k < i ==> CommitNodeOf(nodes[k], commits[k], parentId, viewAsTree)
      invariant IconsFrom(nodes, commits, avatars.cache)
      invariant GrownBy(old(avatars.cache), avatars.cache, Emails(commits, i), f)
    {
      ghost var before := avatars.cache;
      var node := NewCommitNode(commits[i], Some(parentId), viewAsTree, remotes, avatars);
      MergeStep(nodes, node, commits, i, old(avatars.cache), before, avatars.cache, f);
      nodes := nodes + [node];
    }
  }

  /** `cache` is `cache0` grown by exactly `emails`, each new entry the value `f` gives and each old entry kept. */
  ghost predicate GrownBy(cache0: map<string, string>, cache: map<string, string>, emails: set<string>, f: string -> string) {
    (forall e :: e in cache <==> e in cache0 || e in emails)
    && (forall e :: e in cache0 ==> cache[e] == cache0[e])
    && (forall e :: e in cache && e !in cache0 ==> cache[e] == f(e))
  }

  /** One more commit node, made by `NewCommitNode`, keeps the icons and the cache growth of the nodes before it. */
  lemma MergeStep(nodes: seq<CommitNode>, node: CommitNode, commits: seq<GitCommit>, i: nat,
                  cache0: map<string, string>, cache1: map<string, string>, cache2: map<string, string>, f: string -> string)
    requires i == |nodes| < |commits|
    requires IconsFrom(nodes, commits, cache1) && GrownBy(cache0, cache1, Emails(commits, i), f)
    requires var e := commits[i].authorEmail;
      (e == "" ==> node.icon == None && cache2 == cache1)
      && (e != "" && e in cache1 ==> node.icon == Some(cache1[e]) && cache2 == cache1)
      && (e != "" && e !in cache1 ==> node.icon == Some(f(e)) && cache2 == cache1[e := f(e)])
    ensures IconsFrom(nodes + [node], commits, cache2) && GrownBy(cache0, cache2, Emails(commits, i + 1), f)
  {
    GrownStep(commits, i, cache0, cache1, cache2, f);
    IconsKept(nodes, commits, cache1, cache2);
    IconStep(nodes, node, commits, cache2);
  }

  /** The cache after one more lookup has grown by that commit's email too. */
  lemma GrownStep(commits: seq<GitCommit>, i: nat, cache0: map<string, string>, cache1: map<string, string>, cache2: map<string, string>, f: string -> string)
    requires i < |commits| && GrownBy(cache0, cache1, Emails(commits, i), f)
    requires var e := commits[i].authorEmail;
      (e == "" || e in cache1 ==> cache2 == cache1) && (e != "" && e !in cache1 ==> cache2 == cache1[e := f(e)])
    ensures GrownBy(cache0, cache2, Emails(commits, i + 1), f)
  {
    EmailsNext(commits, i);
  }

  /** A node whose icon is read from `cache` extends nodes whose icons are. */
  lemma IconStep(nodes: seq<CommitNode>, node: CommitNode, commits: seq<GitCommit>, cache: map<string, string>)
    requires |nodes| < |commits| && IconsFrom(nodes, commits, cache)
    requires var e := commits[|nodes|].authorEmail;
      if e == "" then node.icon == None else e in cache && node.icon == Some(cache[e])
    ensures IconsFrom(nodes + [node], commits, cache)
  {
  }

  /** Icons read from a cache stay read from any cache that keeps its entries. */
  lemma IconsKept(nodes: seq<CommitNode>, commits: seq<GitCommit>, cache: map<string, string>, cache': map<string, string>)
    requires |nodes| <= |commits| && IconsFrom(nodes, commits, cache)
    requires forall e :: e in cache ==> e in cache' && cache'[e] == cache[e]
    ensures IconsFrom(nodes, commits, cache')
  {
  }

  /** The first change with an unknown status sits at `i` when all before it are known. */
  lemma FirstUnknownAt(changes: seq<Change>, i: nat)
    requires i < |changes| && changes[i].status == OtherStatus
    requires forall k :: 0 <= k < i ==> changes[k].status != OtherStatus
    ensures FirstUnknown(changes) == Some(i) && Reached(changes) == i
  {
    var r := FirstUnknown(changes);
    assert r.Some?;
    assert !(r.value < i);
    assert !(r.value > i);
  }

  /**
   * The changes as nodes below `parentId`, in order, each recording its
   * status in the change decorator; the first unknown status throws, after
   * the changes before it were recorded.
   */
  method MakeChangeNodes(changes: seq<Change>, rootPath: string, parentId: string, ds: Decorators)
      returns (r: Result<seq<ChangeNode>, string>)
    requires ds.worktree != ds.change
    modifies ds.change
    ensures r.Err? <==> FirstUnknown(changes).Some?
    ensures ds.change.decorations == Decorated(old(ds.change.decorations), changes, Reached(changes))
    ensures ds.change.fired == old(ds.change.fired) + Uris(changes, Reached(changes))
    ensures r.Ok? ==> ChangeNodesOf(r.value, changes, rootPath, parentId)
    ensures ds.worktree.decorations == old(ds.worktree.decorations) && ds.worktree.fired == old(ds.worktree.fired)
  {
    var nodes := [];
    for i := 0 to |changes|
      invariant forall k :: 0 <= k < i ==> changes[k].status != OtherStatus
      invariant |nodes| == i && forall k :: 0 <= k < i ==> ChangeNodeOf(nodes[k], changes[k], rootPath, Some(parentId))
      invariant ds.change.decorations == Decorated(old(ds.change.decorations), changes, i)
      invariant ds.change.fired == old(ds.change.fired) + Uris(changes, i)
    {
      var made := NewChangeNode(changes[i], rootPath, Some(parentId), ds);
      if made.Err? {
        FirstUnknownAt(changes, i);
        return Err(made.error);
      }
      nodes := nodes + [made.value];
    }
    r := Ok(nodes);
  }

  /** A URI's decoration after the changes were recorded is that of the last change with that URI. */
  lemma {:induction false} DecoratedLast(store: map<string, FileDecoration>, changes: seq<Change>, n: nat, i: nat)
    requires i < n <= |changes|
    requires forall k :: i < k < n ==> changes[k].uri != changes[i].uri
    ensures Lookup(Decorated(store, changes, n), changes[i].uri) == StatusEntry(changes[i].status)
  {
    if n - 1 == i {
      LookupStored(Decorated(store, changes, i), changes[i].uri, StatusEntry(changes[i].status));
    } else {
      DecoratedLast(store, changes, n - 1, i);
      StoredOthers(Decorated(store, changes, n - 1), changes[n - 1].uri, StatusEntry(changes[n - 1].status), changes[i].uri);
    }
  }

  /** A URI none of the changes has keeps its decoration. */
  lemma {:induction false} DecoratedOthers(store: map<string, FileDecoration>, changes: seq<Change>, n: nat, uri: string)
    requires n <= |changes|
    requires forall k :: 0 <= k < n ==> changes[k].uri != uri
    ensures Lookup(Decorated(store, changes, n), uri) == Lookup(store, uri)
  {
    if n > 0 {
      DecoratedOthers(store, changes, n - 1, uri);
      StoredOthers(Decorated(store, changes, n - 1), changes[n - 1].uri, StatusEntry(changes[n - 1].status), uri);
    }
  }

  /** In the tree view the leaves are the change nodes, each exactly once. */
  lemma ChangeTreeLeaves(changes: seq<Change>, rootPath: string, parentId: string)
    ensures BuildTree.NoDup(BuildTree.LeafList(BuildTree.MakeTree(BuildTree.Structure(Indexed(changes), rootPath), Some(parentId))))
    ensures forall m ::
      m in BuildTree.LeafList(BuildTree.MakeTree(BuildTree.Structure(Indexed(changes), rootPath), Some(parentId))) <==> m in Indexed(changes)
  {
    var ns := Indexed(changes);
    BuildTree.BuildTreeLeaves(ns, rootPath, Some(parentId));
    forall m | m in ns ensures m.uri.Some? {
      var k :| 0 <= k < |ns| && ns[k] == m;
    }
  }
}
