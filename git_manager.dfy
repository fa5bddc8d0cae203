/**
 * The data shaping of `GitManager` (src/git-manager.ts): the fields added to
 * each commit after `repository.log`, the parsing of `git diff
 * --name-status` output into commit files, the file-order comparator of
 * `sortFiles`, and how `executeCommand` turns the outcome of `exec` into a
 * resolved or rejected promise.
 *
 * Running git, building URIs and the editor commands are outside the model:
 * their results arrive as parameters.
 */
module GitManager {
  import opened Wrappers
  import opened JsStrings

  // ----- fetchCommits -----

  /** `s.substr(0, n)`: the first `n` characters, or all of a shorter string. */
  function Take(s: string, n: nat): (r: string)
    ensures r <= s
    ensures |r| == if |s| < n then |s| else n
  {
    if |s| < n then s else s[..n]
  }

  /** What `parents.shift()` leaves behind. */
  function Shifted(parents: seq<string>): (rest: seq<string>)
    ensures parents == [] ==> rest == []
    ensures parents != [] ==> [parents[0]] + rest == parents
  {
    if parents == [] then [] else parents[1..]
  }

  /** `parents.shift() || hash`: the first parent, unless there is none or it is the empty string. */
  function ParentHash(parents: seq<string>, hash: string): (p: string)
    ensures parents != [] && parents[0] != "" ==> p == parents[0]
    ensures parents == [] || parents[0] == "" ==> p == hash
  {
    if parents != [] && parents[0] != "" then parents[0] else hash
  }

  /**
   * A commit as `fetchCommits` hands it on. Only the fields the manager
   * reads or writes are kept; `parentHash`, `shortHash` and
   * `parentShortHash` are `""` until `Shape` writes them.
   */
  class ManagedCommit {
    const hash: string
    var parents: seq<string>
    var parentHash: string
    var shortHash: string
    var parentShortHash: string

    constructor (hash: string, parents: seq<string>)
      ensures this.hash == hash && this.parents == parents
      ensures parentHash == "" && shortHash == "" && parentShortHash == ""
    {
      this.hash := hash;
      this.parents := parents;
      parentHash := "";
      shortHash := "";
      parentShortHash := "";
    }

    /** The body of the `map` callback in `fetchCommits`, applied to this commit. */
    method Shape()
      modifies this
      ensures parents == Shifted(old(parents))
      ensures parentHash == ParentHash(old(parents), hash)
      ensures shortHash == Take(hash, 7)
      ensures parentShortHash == Take(parentHash, 7)
    {
      var first: Option<string> := None;
      if parents != [] {
        first := Some(parents[0]);
        parents := parents[1..];
      }
      parentHash := if first.Some? && first.value != "" then first.value else hash;
      shortHash := Take(hash, 7);
      parentShortHash := Take(parentHash, 7);
    }
  }

  /**
   * After the shift a commit counts as a merge (src/nodes/commit.ts:26) iff
   * it had at least two parents to begin with.
   */
  lemma MergeAfterShift(parents: seq<string>)
    ensures |Shifted(parents)| > 0 <==> |parents| >= 2
  {
  }

  /** The ending of the error `log` raises in a repository without commits. */
  const NoCommitsYet: string := "does not have any commits yet"

  /** The `catch` of `fetchCommits`: an empty repository gives no commits, any other error propagates. */
  function LogOutcome(log: Result<seq<ManagedCommit>, string>): (r: Result<seq<ManagedCommit>, string>)
    ensures log.Ok? ==> r == log
    ensures log.Err? && EndsWith(log.error, NoCommitsYet) ==> r == Ok([])
    ensures log.Err? && !EndsWith(log.error, NoCommitsYet) ==> r == log
  {
    match log
    case Ok(_) => log
    case Err(message) => if EndsWith(message, NoCommitsYet) then Ok([]) else log
  }

  predicate Distinct(cs: seq<ManagedCommit>) {
    forall i, j :: 0 <= i < j < |cs| ==> cs[i] != cs[j]
  }

  /**
   * `fetchCommits`, given what `repository.log` settled with (the commits,
   * or the error message): each commit is shaped in place and the same
   * objects are returned.
   */
  method FetchCommits(log: Result<seq<ManagedCommit>, string>) returns (r: Result<seq<ManagedCommit>, string>)
    requires log.Ok? ==> Distinct(log.value)
    modifies if log.Ok? then set i | 0 <= i < |log.value| :: log.value[i] else {}
    ensures r == LogOutcome(log)
    ensures log.Ok? ==> forall i :: 0 <= i < |log.value| ==>
      var c := log.value[i];
      c.parents == Shifted(old(c.parents)) && c.parentHash == ParentHash(old(c.parents), c.hash)
      && c.shortHash == Take(c.hash, 7) && c.parentShortHash == Take(c.parentHash, 7)
  {
    r := LogOutcome(log);
    if log.Ok? {
      var cs := log.value;
      for i := 0 to |cs|
        invariant forall j :: 0 <= j < i ==>
          cs[j].parents == Shifted(old(cs[j].parents)) && cs[j].parentHash == ParentHash(old(cs[j].parents), cs[j].hash)
          && cs[j].shortHash == Take(cs[j].hash, 7) && cs[j].parentShortHash == Take(cs[j].parentHash, 7)
        invariant forall j :: i <= j < |cs| ==> cs[j].parents == old(cs[j].parents)
      {
        cs[i].Shape();
      }
    }
  }

  // ----- fetchCommitFiles: parsing `diff --name-status` -----

  /** `CommitFileStatus`. */
  datatype Action = Added | Modified | Deleted | Renamed

  /** `commitFileActionMap[code] || commitFileActionMap['R']`: an unknown code counts as a rename. */
  function ActionFor(code: string): (a: Action)
    ensures a == Added <==> code == "A"
    ensures a == Modified <==> code == "M"
    ensures a == Deleted <==> code == "D"
  {
    if code == "A" then Added
    else if code == "M" then Modified
    else if code == "D" then Deleted
    else Renamed
  }

  /** The one-letter code git prints for each action. */
  function Letter(a: Action): string {
    match a
    case Added => "A"
    case Modified => "M"
    case Deleted => "D"
    case Renamed => "R"
  }

  lemma ActionLetter(a: Action)
    ensures ActionFor(Letter(a)) == a
  {
  }

  /**
   * A `CommitFile` less its `commit` and `uri`: `relPath` and
   * `relatedRelPath` are undefined when the line has too few fields.
   */
  datatype CommitFile = CommitFile(relPath: Option<string>, relatedRelPath: Option<string>, action: Action)

  /** Field `i` of a destructured line, or undefined. */
  function Field(fields: seq<string>, i: nat): Option<string> {
    if i < |fields| then Some(fields[i]) else None
  }

  /** The `map` callback over one line's fields: `relPath || relatedRelPath` and the action. */
  function ToFile(fields: seq<string>): (f: CommitFile)
    requires fields != []
    ensures f.relatedRelPath == Field(fields, 1) && f.action == ActionFor(fields[0])
    ensures |fields| >= 3 && fields[2] != "" ==> f.relPath == Some(fields[2])
    ensures |fields| < 3 || fields[2] == "" ==> f.relPath == Field(fields, 1)
  {
    var related := Field(fields, 1);
    var rel := Field(fields, 2);
    CommitFile(if rel.Some? && rel.value != "" then rel else related, related, ActionFor(fields[0]))
  }

  /** `filter(Boolean)`: the lines that are not empty, in order. */
  function NonBlank(lines: seq<string>): seq<string> {
    if lines == [] then []
    else if lines[0] == "" then NonBlank(lines[1..])
    else [lines[0]] + NonBlank(lines[1..])
  }

  /** The filter drops exactly the empty lines. */
  lemma {:induction false} NonBlankLines(lines: seq<string>)
    ensures forall k :: 0 <= k < |NonBlank(lines)| ==> NonBlank(lines)[k] != ""
    ensures forall x :: x in NonBlank(lines) <==> x in lines && x != ""
    ensures (forall k :: 0 <= k < |lines| ==> lines[k] != "") ==> NonBlank(lines) == lines
  {
    if lines != [] {
      NonBlankLines(lines[1..]);
      assert lines == [lines[0]] + lines[1..];
    }
  }

  /** Each line split on tabs and made into a file. */
  function LinesToFiles(lines: seq<string>): (fs: seq<CommitFile>)
    ensures |fs| == |lines|
  {
    seq(|lines|, k requires 0 <= k < |lines| => ToFile(Split(lines[k], '\t')))
  }

  /** `results.trim().split('\n').filter(Boolean).map(…split('\t')).map(…)`. */
  function ParseNameStatus(output: string): seq<CommitFile> {
    LinesToFiles(NonBlank(Split(Trim(output), '\n')))
  }

  /** One change as git prints it: the code, the old path, and the new path of a rename or copy. */
  datatype Change = Change(code: string, from: string, to: Option<string>)

  function Pieces(c: Change): seq<string> {
    [c.code, c.from] + (match c.to case Some(t) => [t] case None => [])
  }

  /** `code\tfrom[\tto]`. */
  function Line(c: Change): string {
    Join(Pieces(c), "\t")
  }

  function Lines(cs: seq<Change>): (ls: seq<string>)
    ensures |ls| == |cs|
  {
    seq(|cs|, k requires 0 <= k < |cs| => Line(cs[k]))
  }

  /** The last path of a line: the one a file's `relPath` takes. */
  function LastPath(c: Change): string {
    match c.to
    case Some(t) => t
    case None => c.from
  }

  /** A status as git prints it: a capital letter, then the digits of a score, if any. */
  predicate GitCode(code: string) {
    code != [] && 'A' <= code[0] <= 'Z' && forall k :: 1 <= k < |code| ==> '0' <= code[k] <= '9'
  }

  /**
   * A change git can print: a status in git's form, no tab or newline inside
   * a field, no empty field, and nothing `trim` would cut off at the ends of
   * the output.
   */
  predicate Printable(c: Change) {
    GitCode(c.code) && c.from != [] && LastPath(c) != []
    && (forall k :: 0 <= k < |Pieces(c)| ==> '\t' !in Pieces(c)[k] && '\n' !in Pieces(c)[k])
    && !IsJsWhitespace(c.code[0]) && !IsJsWhitespace(LastPath(c)[|LastPath(c)| - 1])
  }

  /** The file `fetchCommitFiles` makes from a printed change. */
  function Expected(c: Change): CommitFile {
    CommitFile(Some(LastPath(c)), Some(c.from), ActionFor(c.code))
  }

  function ExpectedAll(cs: seq<Change>): (fs: seq<CommitFile>)
    ensures |fs| == |cs|
  {
    seq(|cs|, k requires 0 <= k < |cs| => Expected(cs[k]))
  }

  lemma {:induction false} JoinFirst(parts: seq<string>, sep: string)
    requires parts != [] && parts[0] != []
    ensures Join(parts, sep) != [] && Join(parts, sep)[0] == parts[0][0]
    decreases |parts|
  {
  }

  lemma {:induction false} JoinLast(parts: seq<string>, sep: string)
    requires parts != [] && parts[|parts| - 1] != []
    ensures var j := Join(parts, sep); j != [] && j[|j| - 1] == parts[|parts| - 1][|parts[|parts| - 1]| - 1]
    decreases |parts|
  {
    if |parts| > 1 {
      JoinLast(parts[1..], sep);
    }
  }

  lemma LineShape(c: Change)
    requires Printable(c)
    ensures Line(c) != [] && Line(c)[0] == c.code[0]
    ensures Line(c)[|Line(c)| - 1] == LastPath(c)[|LastPath(c)| - 1]
    ensures '\n' !in Line(c) && Split(Line(c), '\t') == Pieces(c)
  {
    var ps := Pieces(c);
    JoinFirst(ps, "\t");
    JoinLast(ps, "\t");
    SplitJoin(ps, '\t');
    JoinNoChar(ps, "\t", '\n');
  }

  lemma {:induction false} JoinNoChar(parts: seq<string>, sep: string, x: char)
    requires x !in sep && forall k :: 0 <= k < |parts| ==> x !in parts[k]
    ensures x !in Join(parts, sep)
    decreases |parts|
  {
    if |parts| > 1 {
      JoinNoChar(parts[1..], sep, x);
    }
  }

  /** The output of `git diff --name-status` for printable changes parses back to one file per change, in order. */
  lemma NameStatusRoundTrip(cs: seq<Change>)
    requires forall k :: 0 <= k < |cs| ==> Printable(cs[k])
    ensures ParseNameStatus(Join(Lines(cs), "\n")) == ExpectedAll(cs)
  {
    if cs == [] {
      assert Split(Trim(""), '\n') == [""];
    } else {
      LinesShape(cs);
      TextTrimmed(cs);
      LinesFiles(cs);
      ParseLines(Join(Lines(cs), "\n"), Lines(cs), ExpectedAll(cs));
    }
  }

  lemma LinesShape(cs: seq<Change>)
    requires forall k :: 0 <= k < |cs| ==> Printable(cs[k])
    ensures forall k :: 0 <= k < |cs| ==>
      var l := Lines(cs)[k];
      '\n' !in l && l != [] && cs[k].code != [] && LastPath(cs[k]) != []
      && l[0] == cs[k].code[0] && l[|l| - 1] == LastPath(cs[k])[|LastPath(cs[k])| - 1]
    ensures cs != [] ==> Split(Join(Lines(cs), "\n"), '\n') == Lines(cs)
  {
    var ls := Lines(cs);
    forall k | 0 <= k < |cs|
      ensures '\n' !in ls[k] && ls[k] != [] && ls[k][0] == cs[k].code[0]
      ensures ls[k][|ls[k]| - 1] == LastPath(cs[k])[|LastPath(cs[k])| - 1]
    {
      LineShape(cs[k]);
    }
    if cs != [] {
      SplitJoin(ls, '\n');
    }
  }

  lemma TextTrimmed(cs: seq<Change>)
    requires cs != [] && forall k :: 0 <= k < |cs| ==> Printable(cs[k])
    ensures Trim(Join(Lines(cs), "\n")) == Join(Lines(cs), "\n")
  {
    LinesShape(cs);
    var c := cs[|cs| - 1];
    assert Printable(c);
    TrimmedJoin(Lines(cs));
  }

  /** Joined lines whose first and last characters are not whitespace are left alone by `trim`. */
  lemma TrimmedJoin(ls: seq<string>)
    requires ls != [] && ls[0] != [] && ls[|ls| - 1] != []
    requires !IsJsWhitespace(ls[0][0]) && !IsJsWhitespace(ls[|ls| - 1][|ls[|ls| - 1]| - 1])
    ensures Trim(Join(ls, "\n")) == Join(ls, "\n")
  {
    JoinFirst(ls, "\n");
    JoinLast(ls, "\n");
    TrimNoop(Join(ls, "\n"));
  }

  lemma LinesFiles(cs: seq<Change>)
    requires forall k :: 0 <= k < |cs| ==> Printable(cs[k])
    ensures LinesToFiles(Lines(cs)) == ExpectedAll(cs)
  {
    var fs := LinesToFiles(Lines(cs));
    forall k | 0 <= k < |cs| ensures fs[k] == Expected(cs[k]) {
      LineShape(cs[k]);
      assert fs[k] == ToFile(Pieces(cs[k]));
    }
  }

  lemma ParseLines(output: string, ls: seq<string>, fs: seq<CommitFile>)
    requires Trim(output) == output && Split(output, '\n') == ls
    requires (forall k :: 0 <= k < |ls| ==> ls[k] != "") && LinesToFiles(ls) == fs
    ensures ParseNameStatus(output) == fs
  {
    NonBlankLines(ls);
  }

  // ----- sortFiles -----

  /** The first index `k` at or after `from` with `a[k] < b[k]`, if any. */
  function FirstLess(a: seq<string>, b: seq<string>, from: nat): (k: Option<nat>)
    requires |a| == |b|
    ensures k.Some? ==>
      from <= k.value < |a| && Less(a[k.value], b[k.value]) && forall j :: from <= j < k.value ==> !Less(a[j], b[j])
    ensures k.None? ==> forall j :: from <= j < |a| ==> !Less(a[j], b[j])
    decreases |a| - from
  {
    if from >= |a| then None
    else if Less(a[from], b[from]) then Some(from)
    else FirstLess(a, b, from + 1)
  }

  /**
   * The comparator of `sortFiles`: a path with more `/`-separated parts
   * comes first; at equal depth the result is -1 iff the first part of `a`
   * below its counterpart in `b` is non-empty, and 1 otherwise.
   */
  function Compare(a: string, b: string): (r: int)
    ensures r == -1 || r == 1
  {
    var ap := Split(a, '/');
    var bp := Split(b, '/');
    if |ap| < |bp| then 1
    else if |ap| > |bp| then -1
    else match FirstLess(ap, bp, 0)
      case Some(k) => if ap[k] != "" then -1 else 1
      case None => 1
  }

  /** The deeper path goes first, whichever side it is on. */
  lemma CompareDepth(a: string, b: string)
    requires |Split(a, '/')| > |Split(b, '/')|
    ensures Compare(a, b) == -1 && Compare(b, a) == 1
  {
  }

  /** At equal depth, `a` goes first iff some part is below its counterpart and the first such part is not empty. */
  lemma CompareEqualDepth(a: string, b: string)
    requires |Split(a, '/')| == |Split(b, '/')|
    ensures var ap, bp := Split(a, '/'), Split(b, '/');
      Compare(a, b) == -1 <==>
        exists k :: 0 <= k < |ap| && Less(ap[k], bp[k]) && ap[k] != ""
          && forall j :: 0 <= j < k ==> !Less(ap[j], bp[j])
  {
    var ap, bp := Split(a, '/'), Split(b, '/');
    match FirstLess(ap, bp, 0)
    case None =>
    case Some(k) =>
      if ap[k] == "" {
        forall i | 0 <= i < |ap| && Less(ap[i], bp[i]) && forall j :: 0 <= j < i ==> !Less(ap[j], bp[j])
          ensures ap[i] == ""
        {
          assert i == k;
        }
      } else {
        assert Less(ap[k], bp[k]) && ap[k] != "";
      }
  }

  /** Equal paths do not compare as equal: the comparator never returns 0. */
  lemma CompareSelf(a: string)
    ensures Compare(a, a) == 1
  {
    var ap := Split(a, '/');
    forall j | 0 <= j < |ap| ensures !Less(ap[j], ap[j]) {
      LessIrreflexive(ap[j]);
    }
  }

  /** The comparator is not antisymmetric: each of these two paths goes before the other. */
  lemma CompareBothWays()
    ensures Compare("a/z", "b/a") == -1 && Compare("b/a", "a/z") == -1
  {
    assert Split("a/z", '/') == ["a", "z"] by {
      SplitJoin(["a", "z"], '/');
      assert Join(["a", "z"], "/") == "a/z";
    }
    assert Split("b/a", '/') == ["b", "a"] by {
      SplitJoin(["b", "a"], '/');
      assert Join(["b", "a"], "/") == "b/a";
    }
    assert Less("a", "b");
    assert !Less("b", "a") && Less("a", "z");
  }

  /** The comparator applied to two files' `relPath`s (defined for every file `SortFiles` is given). */
  function CompareFiles(x: CommitFile, y: CommitFile): (r: int)
    requires x.relPath.Some? && y.relPath.Some?
    ensures r == -1 || r == 1
  {
    Compare(x.relPath.value, y.relPath.value)
  }

  /** Every file has a `relPath` for the comparator to split. */
  predicate Sortable(files: seq<CommitFile>) {
    forall k :: 0 <= k < |files| ==> files[k].relPath.Some?
  }

  /**
   * `files.sort(comparator)`. The engine's algorithm is its own; the model
   * sorts by insertion, swapping a file left while the comparator puts it
   * before its neighbour, and promises only a permutation.
   */
  method SortFiles(a: array<CommitFile>)
    requires Sortable(a[..])
    modifies a
    ensures multiset(a[..]) == multiset(old(a[..]))
  {
    for i := 0 to a.Length
      invariant multiset(a[..]) == multiset(old(a[..]))
      invariant Sortable(a[..])
    {
      var j := i;
      while j > 0 && CompareFiles(a[j - 1], a[j]) > 0
        invariant 0 <= j <= i
        invariant multiset(a[..]) == multiset(old(a[..]))
        invariant Sortable(a[..])
      {
        Swap(a, j - 1, j);
        j := j - 1;
      }
    }
  }

  /** Exchanges two files; the multiset of files stays the same. */
  method Swap(a: array<CommitFile>, i: nat, j: nat)
    requires i < j < a.Length
    modifies a
    ensures a[..] == old(a[..])[i := old(a[j])][j := old(a[i])]
    ensures multiset(a[..]) == multiset(old(a[..]))
  {
    a[i], a[j] := a[j], a[i];
  }

  /** `files.sort` fails when some file has no `relPath`: with two files or more every file meets the comparator, which calls `split` on it. */
  predicate SortThrows(files: seq<CommitFile>) {
    |files| >= 2 && exists k :: 0 <= k < |files| && files[k].relPath.None?
  }

  /** Some file has no `relPath`: its line held no tab. */
  predicate MissingPath(files: seq<CommitFile>) {
    exists k :: 0 <= k < |files| && files[k].relPath.None?
  }

  /**
   * `fetchCommitFiles`, given the output of `git diff --name-status`: the
   * parsed files, sorted. A file without a `relPath` makes the `map`
   * callback throw a `TypeError` already, in `getCommitFileUri`, whose
   * `path.join` refuses `undefined`; so the sort only ever sees files that
   * all have one, and does not throw.
   */
  method FetchCommitFiles(output: string) returns (r: Result<seq<CommitFile>, string>)
    ensures r.Err? <==> MissingPath(ParseNameStatus(output))
    ensures r.Ok? ==> multiset(r.value) == multiset(ParseNameStatus(output))
  {
    var files := ParseNameStatus(output);
    if MissingPath(files) {
      return Err("TypeError");
    }
    r := SortParsed(files);
  }

  /** Output git prints for its changes has a path on every line, so fetching its files does not throw. */
  lemma PrintedHavePaths(cs: seq<Change>)
    requires forall k :: 0 <= k < |cs| ==> Printable(cs[k])
    ensures !MissingPath(ParseNameStatus(Join(Lines(cs), "\n")))
  {
    NameStatusRoundTrip(cs);
  }

  /** The `sortFiles` call on the parsed files. */
  method SortParsed(files: seq<CommitFile>) returns (r: Result<seq<CommitFile>, string>)
    ensures SortThrows(files) <==> r.Err?
    ensures r.Ok? ==> multiset(r.value) == multiset(files)
  {
    if SortThrows(files) {
      return Err("TypeError");
    }
    if |files| < 2 {
      return Ok(files);
    }
    var a := new CommitFile[|files|](k requires 0 <= k < |files| => files[k]);
    assert a[..] == files;
    SortFiles(a);
    r := Ok(a[..]);
  }

  // ----- executeCommand -----

  /** How the promise of `executeCommand` settles. */
  datatype Settled =
    | Resolved(stdout: string)
    | RejectedCommand(message: string)   // a `CommandError` carrying stderr
    | RejectedError(message: string)     // the error of `exec`, unchanged

  /** The `exec` callback: `error` is the message of the error object, when there is one. */
  function ExecOutcome(error: Option<string>, stdout: string, stderr: string): (s: Settled)
    ensures s.Resolved? <==> error.None? && stderr == ""
    ensures s.Resolved? ==> s.stdout == stdout
    ensures s.RejectedCommand? ==> s.message == stderr
    ensures s.RejectedError? <==> error.Some? && !StartsWith(error.value, "Command failed:")
    ensures s.RejectedError? ==> s.message == error.value
  {
    match error
    case Some(message) =>
      if StartsWith(message, "Command failed:") then RejectedCommand(stderr) else RejectedError(message)
    case None =>
      if stderr != "" then RejectedCommand(stderr) else Resolved(stdout)
  }

  /** Output on stderr rejects the command even when `exec` reports success. */
  lemma StderrRejects(stdout: string, stderr: string)
    requires stderr != ""
    ensures ExecOutcome(None, stdout, stderr) == RejectedCommand(stderr)
  {
  }
}
