/**
 * `parseGitCommits` (src/ext/git.ts): reading the NUL-terminated commit records
 * that `git log --format=%H%n%aN%n%aE%n%at%n%ct%n%P%n%B -z` prints.
 *
 * The source drives one module-level regular expression with the `g` flag,
 * whose `lastIndex` survives between calls; that expression is the class
 * `CommitPattern` below. What the expression matches at one index is
 * `MatchAt`, written to make the same choices as the regex engine's
 * backtracking, on indices into the whole input:
 *   - `([0-9a-f]{40})\n`: forty lower-case hex digits, then a newline;
 *   - each of the four `(.*)\n`: the rest of the line, which must end in `\n`
 *     (`.` does not match `\n`, `\r`, U+2028 or U+2029);
 *   - the sixth `(.*)` takes the rest of its line; the optional group
 *     `(?:\n([^]*?))?` then reaches to the first NUL after that line. When
 *     there is no later NUL the group is skipped and the sixth field gives back
 *     characters until it ends right before the LAST NUL on its own line, and
 *     the message group is left undefined.
 */
module CommitLog {
  import opened Wrappers
  import opened JsStrings

  /** The characters `.` does not match in a JavaScript regular expression. */
  predicate IsLineTerminator(c: char) {
    c == '\n' || c == '\r' || c == '\U{2028}' || c == '\U{2029}'
  }

  predicate IsLowerHex(c: char) {
    '0' <= c <= '9' || 'a' <= c <= 'f'
  }

  predicate NoLineTerminator(s: string) {
    forall k :: 0 <= k < |s| ==> !IsLineTerminator(s[k])
  }

  /** Index of the first line terminator in `s` at or after `i`, or `|s|`: how far a greedy `.*` from `i` reaches. */
  function LineEnd(s: string, i: nat): (e: nat)
    requires i <= |s|
    ensures i <= e <= |s|
    ensures e < |s| ==> IsLineTerminator(s[e])
    ensures forall k :: i <= k < e ==> !IsLineTerminator(s[k])
    decreases |s| - i
  {
    if i == |s| || IsLineTerminator(s[i]) then i else LineEnd(s, i + 1)
  }

  /** A line terminator with none before it (from `i` on) is where the line ends. */
  lemma {:induction false} LineEndAt(s: string, i: nat, j: nat)
    requires i <= j < |s| && IsLineTerminator(s[j])
    requires forall k :: i <= k < j ==> !IsLineTerminator(s[k])
    ensures LineEnd(s, i) == j
    decreases j - i
  {
    if i < j {
      LineEndAt(s, i + 1, j);
    }
  }

  /** `(.*)\n` from `i`: the index of the newline that ends the line. */
  function LineAt(s: string, i: nat): (e: Option<nat>)
    requires i <= |s|
    ensures e.Some? ==> i <= e.value < |s| && s[e.value] == '\n'
    ensures e.Some? ==> forall k :: i <= k < e.value ==> !IsLineTerminator(s[k])
  {
    var e := LineEnd(s, i);
    if e < |s| && s[e] == '\n' then Some(e) else None
  }

  /** The index of the first NUL at or after `i`, if any. */
  function NulFrom(s: string, i: nat): (z: Option<nat>)
    requires i <= |s|
    ensures z.Some? ==> i <= z.value < |s| && s[z.value] == '\0'
    decreases |s| - i
  {
    if i == |s| then None
    else if s[i] == '\0' then Some(i)
    else NulFrom(s, i + 1)
  }

  /** A NUL with none before it (from `i` on) is the one found. */
  lemma {:induction false} NulFromAt(s: string, i: nat, z: nat)
    requires i <= z < |s| && s[z] == '\0'
    requires forall k :: i <= k < z ==> s[k] != '\0'
    ensures NulFrom(s, i) == Some(z)
    decreases z - i
  {
    if i < z {
      NulFromAt(s, i + 1, z);
    }
  }

  /** The index of the last NUL in `s[i..e]`, if any. */
  function LastNul(s: string, i: nat, e: nat): (k: Option<nat>)
    requires i <= e <= |s|
    ensures k.Some? ==> i <= k.value < e && s[k.value] == '\0'
    decreases e - i
  {
    if e == i then None
    else if s[e - 1] == '\0' then Some(e - 1)
    else LastNul(s, i, e - 1)
  }

  /** A NUL with none after it (before `e`) is the last one. */
  lemma {:induction false} LastNulAt(s: string, i: nat, k: nat, e: nat)
    requires i <= k < e <= |s| && s[k] == '\0'
    requires forall j :: k < j < e ==> s[j] != '\0'
    ensures LastNul(s, i, e) == Some(k)
    decreases e - k
  {
    if k < e - 1 {
      LastNulAt(s, i, k, e - 1);
    }
  }

  /** The capture groups of one match; `message` is undefined when the optional group is skipped. */
  datatype Groups = Groups(
    hash: string,
    authorName: string,
    authorEmail: string,
    authorDate: string,
    commitDate: string,
    parents: string,
    message: Option<string>)

  /** A match: where it starts and ends (just past its NUL) in the input, and its groups. */
  datatype Found = Found(start: nat, end: nat, groups: Groups)

  /**
   * `(.*)(?:\n([^]*?))?(?:\x00)` from index `i`: the parents field, the
   * message group, and the index just past the NUL that ends the match.
   */
  function MatchTail(s: string, i: nat): (r: Option<(string, Option<string>, nat)>)
    requires i <= |s|
    ensures r.Some? ==> i < r.value.2 <= |s| && s[r.value.2 - 1] == '\0'
  {
    var e := LineEnd(s, i);
    if e < |s| && s[e] == '\n' && NulFrom(s, e + 1).Some? then
      var z := NulFrom(s, e + 1).value;
      Some((s[i..e], Some(s[e + 1..z]), z + 1))
    else
      match LastNul(s, i, e)
      case None => None
      case Some(k) => Some((s[i..k], None, k + 1))
  }

  /**
   * The pattern from index `i` on, where `lines` holds the groups read so far
   * (the hash first): each `(.*)\n` up to the fifth group, then the parents
   * line and the message. `start` is where the match began.
   */
  function MatchLines(s: string, i: nat, lines: seq<string>, start: nat): (r: Option<Found>)
    requires i <= |s| && 1 <= |lines| <= 5
    ensures r.Some? ==> r.value.start == start && i < r.value.end <= |s| && s[r.value.end - 1] == '\0'
    decreases 5 - |lines|
  {
    if |lines| < 5 then
      match LineAt(s, i)
      case None => None
      case Some(e) => MatchLines(s, e + 1, lines + [s[i..e]], start)
    else
      match MatchTail(s, i)
      case None => None
      case Some((parents, message, end)) =>
        Some(Found(start, end, Groups(lines[0], lines[1], lines[2], lines[3], lines[4], parents, message)))
  }

  /** The pattern of src/ext/git.ts:3 tried at index `p` of `s`. */
  function MatchAt(s: string, p: nat): (r: Option<Found>)
    ensures r.Some? ==> r.value.start == p < r.value.end <= |s| && s[r.value.end - 1] == '\0'
  {
    if p + 41 > |s| || !(forall k :: p <= k < p + 40 ==> IsLowerHex(s[k])) || s[p + 40] != '\n' then None
    else MatchLines(s, p + 41, [s[p..p + 40]], p)
  }

  /**
   * `exec` from index `from`: the match at the leftmost index at or after
   * `from` where the pattern matches.
   */
  function Search(s: string, from: nat): (r: Option<Found>)
    ensures r.Some? ==> from <= r.value.start < r.value.end <= |s| && s[r.value.end - 1] == '\0'
    ensures r.Some? ==> MatchAt(s, r.value.start) == r
    decreases |s| - from
  {
    if from > |s| then None
    else if MatchAt(s, from).Some? then MatchAt(s, from)
    else if from == |s| then None
    else Search(s, from + 1)
  }

  /** No index from `from` up to the one the search finds (or at all, when it finds none) matches. */
  lemma {:induction false} SearchIsLeftmost(s: string, from: nat, q: nat)
    requires from <= q <= |s|
    requires Search(s, from).None? || q < Search(s, from).value.start
    ensures MatchAt(s, q).None?
    decreases q - from
  {
    if q > from {
      SearchIsLeftmost(s, from + 1, q);
    }
  }

  /** Without a NUL from `from` on, nothing more matches: an unterminated fragment is never a record. */
  lemma {:induction false} SearchNeedsNul(s: string, from: nat)
    requires forall k :: from <= k < |s| ==> s[k] != '\0'
    ensures Search(s, from).None?
    decreases |s| - from
  {
    if from < |s| {
      SearchNeedsNul(s, from + 1);
    }
  }

  /** The JavaScript `Date` made from `Number(field) * 1000`. */
  datatype JsDate =
    | Epoch(ms: int)        // a date this many milliseconds after 1970-01-01T00:00Z
    | Unparsed(text: string) // a field that is not plain decimal digits; see README

  /** `new Date(Number(field) * 1000)` for the fields git prints: decimal seconds, or "". */
  function SecondsToDate(field: string): (d: JsDate)
    ensures field == "" ==> d == Epoch(0)
    ensures field != "" && AllDigits(field) ==> d == Epoch(DecimalValue(field) * 1000)
  {
    if field == "" then Epoch(0)
    else if AllDigits(field) then Epoch(DecimalValue(field) * 1000)
    else Unparsed(field)
  }

  /** A parsed commit, the `Commit` of the git extension's API. */
  datatype GitCommit = GitCommit(
    hash: string,
    message: string,
    parents: seq<string>,
    authorDate: JsDate,
    authorName: string,
    authorEmail: string,
    commitDate: JsDate)

  /** `` ` ${x}`.substr(1) ``: a copy that forces a fresh string; its value is `x`. */
  function FreshCopy(x: string): (r: string)
    ensures r == x
  {
    (" " + x)[1..]
  }

  /** One trailing newline, if present, is removed from the message. */
  function StripTrailingNewline(m: string): (r: string)
    ensures r + (if m != [] && m[|m| - 1] == '\n' then "\n" else "") == m
  {
    if m != [] && m[|m| - 1] == '\n' then m[..|m| - 1] else m
  }

  /** `parents ? parents.split(' ') : []`. */
  function ParentList(field: string): (ps: seq<string>)
    ensures field == "" <==> ps == []
  {
    if field == "" then [] else Split(field, ' ')
  }

  /** The parent list joined with single spaces gives the field back. */
  lemma ParentListJoin(field: string)
    ensures Join(ParentList(field), " ") == field
  {
    if field != "" {
      JoinSplit(field, ' ');
    }
  }

  /**
   * The `TypeError` thrown at src/ext/git.ts:25 when the message group is
   * undefined. `lastIndex` is where the module-level pattern is left.
   */
  datatype TypeError = MessageUndefined(lastIndex: nat)

  /** The record built from one match (src/ext/git.ts:23-38), which needs the message group. */
  function ToCommit(g: Groups): (c: GitCommit)
    requires g.message.Some?
    ensures c.hash == g.hash && c.authorName == g.authorName && c.authorEmail == g.authorEmail
    ensures c.message == StripTrailingNewline(g.message.value)
  {
    GitCommit(
      FreshCopy(g.hash),
      FreshCopy(StripTrailingNewline(g.message.value)),
      ParentList(g.parents),
      SecondsToDate(g.authorDate),
      FreshCopy(g.authorName),
      FreshCopy(g.authorEmail),
      SecondsToDate(g.commitDate))
  }

  /** What the loop of `parseGitCommits` returns when the pattern starts at `from`. */
  function Parse(s: string, from: nat): Result<seq<GitCommit>, TypeError>
    decreases |s| + 1 - from
  {
    match Search(s, from)
    case None => Ok([])
    case Some(f) =>
      if f.groups.message.None? then Err(MessageUndefined(f.end))
      else match Parse(s, f.end)
        case Ok(cs) => Ok([ToCommit(f.groups)] + cs)
        case Err(e) => Err(e)
  }

  /** Commits already collected in front of a result (an error drops them: the call throws). */
  function Prepend(cs: seq<GitCommit>, r: Result<seq<GitCommit>, TypeError>): Result<seq<GitCommit>, TypeError> {
    match r
    case Ok(rest) => Ok(cs + rest)
    case Err(e) => Err(e)
  }

  /** One successful match with a message: its commit comes first, the rest is read from its end. */
  lemma ParseStep(s: string, from: nat)
    requires Search(s, from).Some? && Search(s, from).value.groups.message.Some?
    ensures Parse(s, from)
      == Prepend([ToCommit(Search(s, from).value.groups)], Parse(s, Search(s, from).value.end))
  {
  }

  lemma PrependNothing(r: Result<seq<GitCommit>, TypeError>)
    ensures Prepend([], r) == r
  {
    if r.Ok? {
      assert [] + r.value == r.value;
    }
  }

  lemma PrependTwice(a: seq<GitCommit>, b: seq<GitCommit>, r: Result<seq<GitCommit>, TypeError>)
    ensures Prepend(a, Prepend(b, r)) == Prepend(a + b, r)
  {
    if r.Ok? {
      assert a + (b + r.value) == a + b + r.value;
    }
  }

  /** An error is not changed by commits in front of it. */
  lemma PrependError(a: Result<seq<GitCommit>, TypeError>, cs: seq<GitCommit>, b: Result<seq<GitCommit>, TypeError>, e: TypeError)
    requires a == Prepend(cs, b) && b == Err(e)
    ensures a == Err(e)
  {
  }

  /** The module-level `commitRegex` of src/ext/git.ts:3 and its `lastIndex`. */
  class CommitPattern {
    var lastIndex: nat

    constructor ()
      ensures lastIndex == 0
    {
      lastIndex := 0;
    }

    /** `commitRegex.exec(data)`: search from `lastIndex`, then move it past the match or reset it. */
    method Exec(data: string) returns (m: Option<Found>)
      modifies this
      ensures m == Search(data, old(lastIndex))
      ensures lastIndex == if m.Some? then m.value.end else 0
    {
      m := Search(data, lastIndex);
      lastIndex := if m.Some? then m.value.end else 0;
    }
  }

  /**
   * `parseGitCommits(data)`: match records until the pattern fails. A match
   * without a message group throws, leaving `lastIndex` set, so that the
   * next call starts from there.
   */
  method ParseGitCommits(re: CommitPattern, data: string) returns (r: Result<seq<GitCommit>, TypeError>)
    modifies re
    ensures r == Parse(data, old(re.lastIndex))
    ensures re.lastIndex == if r.Ok? then 0 else r.error.lastIndex
  {
    var commits: seq<GitCommit> := [];
    PrependNothing(Parse(data, re.lastIndex));
    while true
      invariant Prepend(commits, Parse(data, re.lastIndex)) == Parse(data, old(re.lastIndex))
      decreases |data| + 1 - re.lastIndex
    {
      ghost var at := re.lastIndex;
      var m := re.Exec(data);
      if m.None? {
        assert Parse(data, at) == Ok([]);
        assert commits + [] == commits;
        break;
      }
      var g := m.value.groups;
      if g.message.None? {
        assert Parse(data, at) == Err(MessageUndefined(re.lastIndex));
        return Err(MessageUndefined(re.lastIndex));
      }
      ParseStep(data, at);
      PrependTwice(commits, [ToCommit(g)], Parse(data, re.lastIndex));
      commits := commits + [ToCommit(g)];
    }
    r := Ok(commits);
  }


  // ----- Encoding: the text git prints for a commit -----

  /** A commit as git knows it, before it is printed. */
  datatype RawCommit = RawCommit(
    hash: string,
    authorName: string,
    authorEmail: string,
    authorEpoch: nat,
    commitEpoch: nat,
    parents: seq<string>,
    message: string)

  /** Commits whose fields can be printed in this format and read back. */
  predicate Printable(c: RawCommit) {
    && |c.hash| == 40 && (forall k :: 0 <= k < 40 ==> IsLowerHex(c.hash[k]))
    && NoLineTerminator(c.authorName) && NoLineTerminator(c.authorEmail)
    && (forall i :: 0 <= i < |c.parents| ==>
          c.parents[i] != "" && ' ' !in c.parents[i] && NoLineTerminator(c.parents[i]))
    && '\0' !in c.message
  }

  /** Each field followed by a newline. */
  function Lines(fields: seq<string>): string
    decreases |fields|
  {
    if fields == [] then "" else fields[0] + "\n" + Lines(fields[1..])
  }

  /** The five single-line fields `%H`, `%aN`, `%aE`, `%at` and `%ct`. */
  function HeaderFields(c: RawCommit): seq<string> {
    [c.hash, c.authorName, c.authorEmail, DecimalString(c.authorEpoch), DecimalString(c.commitEpoch)]
  }

  /**
   * `%H%n%aN%n%aE%n%at%n%ct%n%P%n%B` with the NUL that `-z` appends: `%P` is
   * the parent hashes separated by spaces, and `%B` ends in a newline.
   */
  function Encode(c: RawCommit): string {
    Lines(HeaderFields(c)) + Join(c.parents, " ") + "\n" + c.message + "\n" + "\0"
  }

  function EncodeAll(cs: seq<RawCommit>): string
    decreases |cs|
  {
    if cs == [] then "" else Encode(cs[0]) + EncodeAll(cs[1..])
  }

  /** The record that reading `Encode(c)` should give. */
  function Expected(c: RawCommit): GitCommit {
    GitCommit(c.hash, c.message, c.parents, Epoch(c.authorEpoch * 1000),
              c.authorName, c.authorEmail, Epoch(c.commitEpoch * 1000))
  }

  function ExpectedAll(cs: seq<RawCommit>): (r: seq<GitCommit>)
    ensures |r| == |cs|
    ensures forall i :: 0 <= i < |cs| ==> r[i] == Expected(cs[i])
    decreases |cs|
  {
    if cs == [] then [] else [Expected(cs[0])] + ExpectedAll(cs[1..])
  }

  lemma {:induction false} SplitJoinSpaces(ps: seq<string>)
    requires ps != []
    requires forall i :: 0 <= i < |ps| ==> ' ' !in ps[i]
    ensures Split(Join(ps, " "), ' ') == ps
    decreases |ps|
  {
    if |ps| == 1 {
      SplitNoSeparator(ps[0], ' ');
    } else {
      SplitJoinSpaces(ps[1..]);
      SplitAtFirst(ps[0], ' ', Join(ps[1..], " "));
    }
  }

  lemma {:induction false} JoinNoLineTerminator(ps: seq<string>)
    requires forall i :: 0 <= i < |ps| ==> NoLineTerminator(ps[i])
    ensures NoLineTerminator(Join(ps, " "))
    decreases |ps|
  {
    if |ps| > 1 {
      JoinNoLineTerminator(ps[1..]);
      var j := Join(ps, " ");
      assert j == ps[0] + " " + Join(ps[1..], " ");
      forall k | 0 <= k < |j| ensures !IsLineTerminator(j[k]) {
        if k > |ps[0]| {
          assert j[k] == Join(ps[1..], " ")[k - |ps[0]| - 1];
        }
      }
    }
  }

  lemma ParentListOfJoin(ps: seq<string>)
    requires forall i :: 0 <= i < |ps| ==> ps[i] != "" && ' ' !in ps[i]
    ensures ParentList(Join(ps, " ")) == ps
  {
    if ps != [] {
      assert Join(ps, " ") != "" by {
        if |ps| > 1 {
          assert Join(ps, " ") == ps[0] + " " + Join(ps[1..], " ");
        }
      }
      SplitJoinSpaces(ps);
    }
  }

  /** The digits git prints for a timestamp read back as that many seconds. */
  lemma DateOfDigits(n: nat)
    ensures SecondsToDate(DecimalString(n)) == Epoch(n * 1000)
  {
    DecimalRoundTrip(n);
  }

  /** A field and its newline, written at `i`, are read as one `(.*)\n` group. */
  lemma LineAtText(s: string, i: nat, f: string)
    requires NoLineTerminator(f) && TextAt(s, i, f + "\n")
    ensures LineAt(s, i) == Some(i + |f|) && s[i..i + |f|] == f
  {
    assert i + |f| < |s| && s[i + |f|] == '\n' && s[i..i + |f|] == f
      && forall k :: i <= k < i + |f| ==> !IsLineTerminator(s[k]) by {
      TextAtChars(s, i, f + "\n");
      assert forall k :: i <= k < i + |f| ==> s[k] == f[k - i];
      assert s[i..i + |f|] == f;
    }
    LineEndAt(s, i, i + |f|);
  }


  /** `n` successive `(.*)\n` groups from `i`: their texts and the index after the last newline. */
  function ReadLines(s: string, i: nat, n: nat): (r: Option<(seq<string>, nat)>)
    requires i <= |s|
    ensures r.Some? ==> |r.value.0| == n && i <= r.value.1 <= |s|
    decreases n
  {
    if n == 0 then Some(([], i))
    else
      match LineAt(s, i)
      case None => None
      case Some(e) =>
        match ReadLines(s, e + 1, n - 1)
        case None => None
        case Some((more, j)) => Some(([s[i..e]] + more, j))
  }

  /** The groups of a match whose five header groups are `all`. */
  function GroupsOf(all: seq<string>, parents: string, message: Option<string>): Groups
    requires |all| == 5
  {
    Groups(all[0], all[1], all[2], all[3], all[4], parents, message)
  }

  /**
   * The header part of the pattern reads the remaining `(.*)\n` groups, and
   * the tail is matched where they end.
   */
  lemma {:induction false} MatchLinesSplit(s: string, i: nat, lines: seq<string>, start: nat, n: nat, read: seq<string>, all: seq<string>, j: nat, ps: string, msg: Option<string>, end: nat)
    requires i <= |s| && 1 <= |lines| <= 5 && n == 5 - |lines| && all == lines + read
    requires ReadLines(s, i, n) == Some((read, j))
    requires MatchTail(s, j) == Some((ps, msg, end))
    ensures |all| == 5
    ensures MatchLines(s, i, lines, start) == Some(Found(start, end, GroupsOf(all, ps, msg)))
    decreases 5 - |lines|
  {
    if |lines| == 5 {
      assert all == lines;
    } else {
      var e := LineAt(s, i).value;
      var more := ReadLines(s, e + 1, n - 1).value.0;
      assert read == [s[i..e]] + more;
      assert all == lines + [s[i..e]] + more;
      MatchLinesSplit(s, e + 1, lines + [s[i..e]], start, n - 1, more, all, j, ps, msg, end);
    }
  }


  /** One more line in front of `n - 1` lines read from after its newline. */
  lemma ReadLinesStep(s: string, i: nat, n: nat, fields: seq<string>, j: nat)
    requires i <= |s| && n >= 1 && fields != []
    requires LineAt(s, i) == Some(i + |fields[0]|) && s[i..i + |fields[0]|] == fields[0]
    requires ReadLines(s, i + |fields[0]| + 1, n - 1) == Some((fields[1..], j))
    ensures ReadLines(s, i, n) == Some((fields, j))
  {
    assert [fields[0]] + fields[1..] == fields;
  }

  /** Single-line fields written at `i`, each with its newline, are read as that many groups. */
  lemma {:induction false} ReadLinesText(s: string, i: nat, fields: seq<string>, n: nat, j: nat)
    requires n == |fields| && j == i + |Lines(fields)|
    requires forall k :: 0 <= k < |fields| ==> NoLineTerminator(fields[k])
    requires TextAt(s, i, Lines(fields))
    ensures ReadLines(s, i, n) == Some((fields, j))
    decreases n
  {
    if n == 0 {
      assert i <= |s| by {
        TextAtChars(s, i, Lines(fields));
      }
    } else {
      var f, more := fields[0], fields[1..];
      assert Lines(fields) == (f + "\n") + Lines(more);
      TextAtSplit(s, i, f + "\n", Lines(more));
      assert LineAt(s, i) == Some(i + |f|) && s[i..i + |f|] == f by {
        LineAtText(s, i, f);
      }
      ReadLinesText(s, i + |f| + 1, more, n - 1, j);
      ReadLinesStep(s, i, n, fields, j);
    }
  }


  /** A message without NUL, its newline and a NUL, written at `j`: the first NUL from `j` ends it. */
  lemma NulFromText(s: string, j: nat, m: string)
    requires '\0' !in m && TextAt(s, j, m + "\n" + "\0")
    ensures NulFrom(s, j) == Some(j + |m| + 1)
  {
    var t := m + "\n" + "\0";
    assert j + |m| + 1 < |s| && s[j + |m| + 1] == '\0' && forall k :: j <= k < j + |m| + 1 ==> s[k] != '\0' by {
      TextAtChars(s, j, t);
      forall k | j <= k < j + |m| + 1 ensures s[k] != '\0' {
        if k < j + |m| {
          assert s[k] == m[k - j];
        }
      }
    }
    NulFromAt(s, j, j + |m| + 1);
  }



  /** The parents line, the message, its newline and the NUL, written at `i`. */
  lemma MatchTailText(s: string, i: nat, p: string, m: string)
    requires NoLineTerminator(p) && '\0' !in m
    requires TextAt(s, i, p + "\n" + m + "\n" + "\0")
    ensures MatchTail(s, i) == Some((p, Some(m + "\n"), i + |p| + |m| + 3))
  {
    var e := i + |p|;
    var z := e + 1 + |m| + 1;
    assert p + "\n" + m + "\n" + "\0" == (p + "\n") + (m + "\n" + "\0");
    TextAtSplit(s, i, p + "\n", m + "\n" + "\0");
    assert LineEnd(s, i) == e && s[e] == '\n' && s[i..e] == p by {
      LineAtText(s, i, p);
    }
    assert NulFrom(s, e + 1) == Some(z) by {
      NulFromText(s, e + 1, m);
    }
    assert s[e + 1..z] == m + "\n" by {
      TextAtSplit(s, e + 1, m + "\n", "\0");
      TextAtSlice(s, e + 1, m + "\n");
    }
    MatchTailOf(s, i, p, m, e, z);
  }

  /** The tail of the pattern, given where its line ends and where the first NUL after it is. */
  lemma MatchTailOf(s: string, i: nat, p: string, m: string, e: nat, z: nat)
    requires e == i + |p| && z == e + 1 + |m| + 1 && i <= e < |s|
    requires LineEnd(s, i) == e && s[e] == '\n' && s[i..e] == p
    requires NulFrom(s, e + 1) == Some(z)
    requires z <= |s| && s[e + 1..z] == m + "\n"
    ensures MatchTail(s, i) == Some((p, Some(m + "\n"), i + |p| + |m| + 3))
  {
  }



  /** Forty hex digits and a newline written at `p`: the pattern goes on to the header lines. */
  lemma MatchAtHash(s: string, p: nat, h: string)
    requires |h| == 40 && (forall k :: 0 <= k < 40 ==> IsLowerHex(h[k]))
    requires TextAt(s, p, h + "\n")
    ensures MatchAt(s, p) == MatchLines(s, p + 41, [h], p)
  {
    assert p + 41 <= |s| && s[p + 40] == '\n' && s[p..p + 40] == h
      && forall k :: p <= k < p + 40 ==> IsLowerHex(s[k]) by {
      TextAtChars(s, p, h + "\n");
      assert forall k :: p <= k < p + 40 ==> s[k] == h[k - p];
      assert s[p..p + 40] == h;
    }
  }


  /** A record written at `p`, cut into its hash line, its other header lines and its tail. */
  lemma RecordTextSplit(s: string, p: nat, hdr: seq<string>, tail: string)
    requires |hdr| == 5 && |hdr[0]| == 40
    requires TextAt(s, p, Lines(hdr) + tail)
    ensures TextAt(s, p, hdr[0] + "\n")
    ensures TextAt(s, p + 41, Lines(hdr[1..]))
    ensures TextAt(s, p + 41 + |Lines(hdr[1..])|, tail)
    ensures |Lines(hdr)| == 41 + |Lines(hdr[1..])|
  {
    TextAtSplit(s, p, Lines(hdr), tail);
    assert Lines(hdr) == (hdr[0] + "\n") + Lines(hdr[1..]);
    TextAtSplit(s, p, hdr[0] + "\n", Lines(hdr[1..]));
  }

  /** The hash line and the other header lines of a record written at `p`, as the pattern reads them. */
  lemma RecordHeader(s: string, p: nat, hdr: seq<string>, tail: string)
    requires |hdr| == 5 && |hdr[0]| == 40 && (forall k :: 0 <= k < 40 ==> IsLowerHex(hdr[0][k]))
    requires forall j :: 1 <= j < 5 ==> NoLineTerminator(hdr[j])
    requires TextAt(s, p, Lines(hdr) + tail)
    ensures p + 41 + |Lines(hdr[1..])| <= |s|
    ensures MatchAt(s, p) == MatchLines(s, p + 41, [hdr[0]], p)
    ensures ReadLines(s, p + 41, |hdr[1..]|) == Some((hdr[1..], p + 41 + |Lines(hdr[1..])|))
  {
    var more := hdr[1..];
    assert p + 41 + |Lines(more)| <= |s| by {
      RecordTextSplit(s, p, hdr, tail);
      TextAtChars(s, p + 41, Lines(more));
    }
    assert MatchAt(s, p) == MatchLines(s, p + 41, [hdr[0]], p) by {
      RecordTextSplit(s, p, hdr, tail);
      MatchAtHash(s, p, hdr[0]);
    }
    assert ReadLines(s, p + 41, |more|) == Some((more, p + 41 + |Lines(more)|)) by {
      RecordTextSplit(s, p, hdr, tail);
      ReadLinesText(s, p + 41, more, |more|, p + 41 + |Lines(more)|);
    }
  }

  /** The pattern at `p`, given what its hash line, its other header lines and its tail read. */
  lemma MatchRecordOf(s: string, p: nat, hdr: seq<string>, ps: string, msg: Option<string>, q: nat, end: nat)
    requires |hdr| == 5 && p + 41 <= q <= |s|
    requires MatchAt(s, p) == MatchLines(s, p + 41, [hdr[0]], p)
    requires ReadLines(s, p + 41, |hdr[1..]|) == Some((hdr[1..], q))
    requires MatchTail(s, q) == Some((ps, msg, end))
    ensures MatchAt(s, p).Some?
    ensures MatchAt(s, p).value.end == end
    ensures MatchAt(s, p).value.groups == Groups(hdr[0], hdr[1], hdr[2], hdr[3], hdr[4], ps, msg)
  {
    assert hdr == [hdr[0]] + hdr[1..];
    MatchLinesSplit(s, p + 41, [hdr[0]], p, |hdr[1..]|, hdr[1..], hdr, q, ps, msg, end);
  }

  /** A well-formed header written at `p`, followed by a tail that the end of the pattern reads. */
  lemma MatchRecordWith(s: string, p: nat, hdr: seq<string>, tail: string, q: nat, ps: string, msg: Option<string>, end: nat)
    requires |hdr| == 5 && |hdr[0]| == 40 && (forall k :: 0 <= k < 40 ==> IsLowerHex(hdr[0][k]))
    requires forall j :: 1 <= j < 5 ==> NoLineTerminator(hdr[j])
    requires TextAt(s, p, Lines(hdr) + tail) && q == p + |Lines(hdr)|
    requires MatchTail(s, q) == Some((ps, msg, end))
    ensures MatchAt(s, p).Some?
    ensures MatchAt(s, p).value.end == end
    ensures MatchAt(s, p).value.groups == Groups(hdr[0], hdr[1], hdr[2], hdr[3], hdr[4], ps, msg)
  {
    assert q == p + 41 + |Lines(hdr[1..])| by {
      RecordTextSplit(s, p, hdr, tail);
    }
    RecordHeader(s, p, hdr, tail);
    MatchRecordOf(s, p, hdr, ps, msg, q, end);
  }

  /** The tail of a record written at `p` starts right after its header lines. */
  lemma RecordTail(s: string, p: nat, hdr: seq<string>, tail: string, q: nat)
    requires |hdr| == 5 && |hdr[0]| == 40
    requires TextAt(s, p, Lines(hdr) + tail) && q == p + |Lines(hdr)|
    ensures TextAt(s, q, tail)
  {
    RecordTextSplit(s, p, hdr, tail);
  }

  /**
   * A record with a well-formed header, a parents line and a message
   * without NUL, written at `p`, matches with the message group defined.
   */
  lemma MatchRecordText(s: string, p: nat, hdr: seq<string>, ps: string, m: string)
    requires |hdr| == 5 && |hdr[0]| == 40 && (forall k :: 0 <= k < 40 ==> IsLowerHex(hdr[0][k]))
    requires forall j :: 1 <= j < 5 ==> NoLineTerminator(hdr[j])
    requires NoLineTerminator(ps) && '\0' !in m
    requires TextAt(s, p, Lines(hdr) + (ps + "\n" + m + "\n" + "\0"))
    ensures MatchAt(s, p).Some?
    ensures MatchAt(s, p).value.end == p + |Lines(hdr)| + |ps| + |m| + 3
    ensures MatchAt(s, p).value.groups == Groups(hdr[0], hdr[1], hdr[2], hdr[3], hdr[4], ps, Some(m + "\n"))
  {
    var tail := ps + "\n" + m + "\n" + "\0";
    var q := p + |Lines(hdr)|;
    var end := q + |ps| + |m| + 3;
    assert MatchTail(s, q) == Some((ps, Some(m + "\n"), end)) by {
      RecordTail(s, p, hdr, tail, q);
      MatchTailText(s, q, ps, m);
    }
    MatchRecordWith(s, p, hdr, tail, q, ps, Some(m + "\n"), end);
  }

  /** The pattern matches the printed form of a printable commit, written at `p`, exactly. */
  lemma MatchEncoded(s: string, p: nat, c: RawCommit)
    requires Printable(c) && TextAt(s, p, Encode(c))
    ensures MatchAt(s, p).Some?
    ensures MatchAt(s, p).value.end == p + |Encode(c)|
    ensures MatchAt(s, p).value.groups.message.Some?
    ensures ToCommit(MatchAt(s, p).value.groups) == Expected(c)
  {
    var hdr, ps := HeaderFields(c), Join(c.parents, " ");
    assert NoLineTerminator(hdr[3]) && NoLineTerminator(hdr[4]) by {
      assert forall k :: 0 <= k < |hdr[3]| ==> IsDigit(hdr[3][k]);
      assert forall k :: 0 <= k < |hdr[4]| ==> IsDigit(hdr[4][k]);
    }
    JoinNoLineTerminator(c.parents);
    assert Encode(c) == Lines(hdr) + (ps + "\n" + c.message + "\n" + "\0");
    MatchRecordText(s, p, hdr, ps, c.message);
    assert StripTrailingNewline(c.message + "\n") == c.message;
    ParentListOfJoin(c.parents);
    DateOfDigits(c.authorEpoch);
    DateOfDigits(c.commitEpoch);
  }

  /** A match at `p` that carries a message contributes its commit `x`; reading goes on where it ends. */
  lemma ParseAt(s: string, p: nat, x: GitCommit, mid: nat)
    requires MatchAt(s, p).Some? && MatchAt(s, p).value.groups.message.Some?
    requires ToCommit(MatchAt(s, p).value.groups) == x && MatchAt(s, p).value.end == mid
    ensures Parse(s, p) == Prepend([x], Parse(s, mid))
  {
    assert Search(s, p) == MatchAt(s, p);
    ParseStep(s, p);
  }

  /**
   * Reading printed commits, after any prefix, gives exactly those commits in
   * order, in front of whatever the rest of the input gives.
   */
  lemma {:induction false} ParseEncodedFrom(s: string, at: nat, pre: string, cs: seq<RawCommit>, rest: string, stop: nat)
    requires forall i :: 0 <= i < |cs| ==> Printable(cs[i])
    requires s == pre + EncodeAll(cs) + rest && at == |pre| && stop == at + |EncodeAll(cs)|
    ensures Parse(s, at) == Prepend(ExpectedAll(cs), Parse(s, stop))
    decreases |cs|
  {
    if cs == [] {
      PrependNothing(Parse(s, at));
    } else {
      var enc, tl := Encode(cs[0]), EncodeAll(cs[1..]);
      var pre' := pre + enc;
      var mid := at + |enc|;
      EncodeAllFirst(s, pre, cs, rest);
      ParseEncodedHead(s, at, pre, cs[0], tl + rest, mid);
      ParseEncodedFrom(s, mid, pre', cs[1..], rest, stop);
      PrependChain(Parse(s, at), Parse(s, mid), Parse(s, stop), Expected(cs[0]), ExpectedAll(cs[1..]));
      assert ExpectedAll(cs) == [Expected(cs[0])] + ExpectedAll(cs[1..]);
    }
  }

  /** The printed commits, with the first one moved to the prefix or the rest moved to the suffix. */
  lemma EncodeAllFirst(s: string, pre: string, cs: seq<RawCommit>, rest: string)
    requires cs != [] && s == pre + EncodeAll(cs) + rest
    ensures s == pre + Encode(cs[0]) + (EncodeAll(cs[1..]) + rest)
    ensures s == (pre + Encode(cs[0])) + EncodeAll(cs[1..]) + rest
    ensures |EncodeAll(cs)| == |Encode(cs[0])| + |EncodeAll(cs[1..])|
  {
    assert EncodeAll(cs) == Encode(cs[0]) + EncodeAll(cs[1..]);
    Regroup(pre, Encode(cs[0]), EncodeAll(cs[1..]), rest);
  }

  lemma Regroup(a: string, b: string, c: string, d: string)
    ensures a + (b + c) + d == a + b + (c + d) == (a + b) + c + d
  {
  }

  /** The first printed commit, read at `at`: one commit, then reading goes on right after it. */
  lemma ParseEncodedHead(s: string, at: nat, pre: string, c: RawCommit, rest: string, mid: nat)
    requires Printable(c) && s == pre + Encode(c) + rest && at == |pre| && mid == at + |Encode(c)|
    ensures Parse(s, at) == Prepend([Expected(c)], Parse(s, mid))
  {
    assert MatchAt(s, at).Some? && MatchAt(s, at).value.groups.message.Some?
      && ToCommit(MatchAt(s, at).value.groups) == Expected(c) && MatchAt(s, at).value.end == mid by {
      assert TextAt(s, at, Encode(c)) by {
        TextAtMiddle(pre, Encode(c), rest);
      }
      MatchEncoded(s, at, c);
    }
    ParseAt(s, at, Expected(c), mid);
  }

  lemma PrependChain(a: Result<seq<GitCommit>, TypeError>, b: Result<seq<GitCommit>, TypeError>,
                     c: Result<seq<GitCommit>, TypeError>, x: GitCommit, xs: seq<GitCommit>)
    requires a == Prepend([x], b) && b == Prepend(xs, c)
    ensures a == Prepend([x] + xs, c)
  {
    PrependTwice([x], xs, c);
  }

  /** Round trip: N printed commits parse to exactly those N commits, in order. */
  lemma ParseEncoded(cs: seq<RawCommit>)
    requires forall i :: 0 <= i < |cs| ==> Printable(cs[i])
    ensures Parse(EncodeAll(cs), 0) == Ok(ExpectedAll(cs))
  {
    ParseDropsFragment(cs, "");
    assert EncodeAll(cs) + "" == EncodeAll(cs);
  }

  /** Records followed by an unterminated fragment: the fragment is dropped. */
  lemma ParseDropsFragment(cs: seq<RawCommit>, frag: string)
    requires forall i :: 0 <= i < |cs| ==> Printable(cs[i])
    requires '\0' !in frag
    ensures Parse(EncodeAll(cs) + frag, 0) == Ok(ExpectedAll(cs))
  {
    var s, n := EncodeAll(cs) + frag, |EncodeAll(cs)|;
    FragmentGivesNothing(s, EncodeAll(cs), frag);
    assert s == "" + EncodeAll(cs) + frag;
    ParseEncodedFrom(s, 0, "", cs, frag, n);
    PrependOk(Parse(s, 0), ExpectedAll(cs), Parse(s, n));
  }

  /** Nothing is read from a fragment without NUL. */
  lemma FragmentGivesNothing(s: string, e: string, frag: string)
    requires '\0' !in frag && s == e + frag
    ensures Parse(s, |e|) == Ok([])
  {
    forall k | |e| <= k < |s| ensures s[k] != '\0' {
      assert s[k] == frag[k - |e|];
    }
    SearchNeedsNul(s, |e|);
  }

  lemma PrependOk(a: Result<seq<GitCommit>, TypeError>, cs: seq<GitCommit>, b: Result<seq<GitCommit>, TypeError>)
    requires a == Prepend(cs, b) && b == Ok([])
    ensures a == Ok(cs)
  {
    assert cs + [] == cs;
  }

  /** Input without a NUL, the empty string included, gives no commits. */
  lemma ParseWithoutNul(s: string)
    requires '\0' !in s
    ensures Parse(s, 0) == Ok([])
  {
    SearchNeedsNul(s, 0);
  }

  /** There is no NUL from `i` on. */
  lemma {:induction false} NulFromNone(s: string, i: nat)
    requires i <= |s| && forall k :: i <= k < |s| ==> s[k] != '\0'
    ensures NulFrom(s, i).None?
    decreases |s| - i
  {
    if i < |s| {
      NulFromNone(s, i + 1);
    }
  }

  /**
   * A parents line cut short by a NUL, with no NUL after it: the optional
   * group is skipped and the match ends at that NUL, with no message.
   */
  lemma MatchTailUndefined(s: string, i: nat, p: string)
    requires NoLineTerminator(p) && '\0' !in p
    requires TextAt(s, i, p + "\0")
    requires forall k :: i + |p| < k < |s| ==> s[k] != '\0'
    ensures MatchTail(s, i) == Some((p, None, i + |p| + 1))
  {
    var z := i + |p|;
    assert z < |s| && s[z] == '\0' && s[i..z] == p
      && forall k :: i <= k < z ==> !IsLineTerminator(s[k]) && s[k] != '\0' by {
      TextAtChars(s, i, p + "\0");
      assert forall k :: i <= k < z ==> s[k] == p[k - i];
      assert s[i..z] == p;
    }
    var e := LineEnd(s, i);
    assert z < e;
    NulFromNone(s, if e < |s| then e + 1 else |s|);
    LastNulAt(s, i, z, e);
  }

  /**
   * The record shape that leaves the message group undefined (src/ext/git.ts:3):
   * a well-formed header, then a parents line ended by a NUL with no NUL after it.
   */
  lemma MatchUndefinedText(s: string, at: nat, hdr: seq<string>, p: string)
    requires |hdr| == 5 && |hdr[0]| == 40 && (forall k :: 0 <= k < 40 ==> IsLowerHex(hdr[0][k]))
    requires forall j :: 1 <= j < 5 ==> NoLineTerminator(hdr[j])
    requires NoLineTerminator(p) && '\0' !in p
    requires TextAt(s, at, Lines(hdr) + (p + "\0"))
    requires forall k :: at + |Lines(hdr)| + |p| < k < |s| ==> s[k] != '\0'
    ensures MatchAt(s, at).Some?
    ensures MatchAt(s, at).value.end == at + |Lines(hdr)| + |p| + 1
    ensures MatchAt(s, at).value.groups == Groups(hdr[0], hdr[1], hdr[2], hdr[3], hdr[4], p, None)
  {
    var q := at + |Lines(hdr)|;
    var end := q + |p| + 1;
    assert MatchTail(s, q) == Some((p, None, end)) by {
      RecordTail(s, at, hdr, p + "\0", q);
      MatchTailUndefined(s, q, p);
    }
    MatchRecordWith(s, at, hdr, p + "\0", q, p, None, end);
  }

  /** A record whose message group is undefined, written at `n` after `enc`: reading from `n` throws. */
  lemma UndefinedRecordAt(s: string, n: nat, enc: string, hdr: seq<string>, p: string, frag: string, end: nat)
    requires |hdr| == 5 && |hdr[0]| == 40 && (forall k :: 0 <= k < 40 ==> IsLowerHex(hdr[0][k]))
    requires forall j :: 1 <= j < 5 ==> NoLineTerminator(hdr[j])
    requires NoLineTerminator(p) && '\0' !in p && '\0' !in frag
    requires s == enc + (Lines(hdr) + (p + "\0")) + frag && n == |enc|
    requires end == n + |Lines(hdr)| + |p| + 1
    ensures Parse(s, n) == Err(MessageUndefined(end))
  {
    var bad := Lines(hdr) + (p + "\0");
    assert MatchAt(s, n).Some? && MatchAt(s, n).value.end == end
      && MatchAt(s, n).value.groups.message.None? by {
      assert TextAt(s, n, bad) by {
        TextAtMiddle(enc, bad, frag);
      }
      forall k | n + |Lines(hdr)| + |p| < k < |s| ensures s[k] != '\0' {
        if k >= n + |bad| {
          assert s[k] == frag[k - n - |bad|];
        }
      }
      MatchUndefinedText(s, n, hdr, p);
    }
    assert Search(s, n) == MatchAt(s, n);
  }

  /**
   * Printed commits followed by a record whose message group is undefined:
   * the call throws at src/ext/git.ts:25, the commits read before are lost,
   * and `lastIndex` is left just past that record's NUL.
   */
  lemma ParseThrowsOnUndefinedMessage(s: string, cs: seq<RawCommit>, hdr: seq<string>, p: string, frag: string, end: nat)
    requires forall i :: 0 <= i < |cs| ==> Printable(cs[i])
    requires |hdr| == 5 && |hdr[0]| == 40 && (forall k :: 0 <= k < 40 ==> IsLowerHex(hdr[0][k]))
    requires forall j :: 1 <= j < 5 ==> NoLineTerminator(hdr[j])
    requires NoLineTerminator(p) && '\0' !in p && '\0' !in frag
    requires s == EncodeAll(cs) + Lines(hdr) + p + "\0" + frag
    requires end == |EncodeAll(cs)| + |Lines(hdr)| + |p| + 1
    ensures Parse(s, 0) == Err(MessageUndefined(end))
  {
    var enc, bad := EncodeAll(cs), Lines(hdr) + (p + "\0");
    var n := |enc|;
    assert s == enc + bad + frag && s == "" + enc + (bad + frag) by {
      assert s == enc + bad + frag;
    }
    UndefinedRecordAt(s, n, enc, hdr, p, frag, end);
    ParseEncodedFrom(s, 0, "", cs, bad + frag, n);
    PrependError(Parse(s, 0), ExpectedAll(cs), Parse(s, n), MessageUndefined(end));
  }
}
