# git-commits, modelled in Dafny

git-commits is a VS Code extension. It shows the commits of the selected
repository as a tree. Each commit carries its author's avatar and expands to
its merged commits or its changed files, as a flat list or as folders. This
project models the logic inside that editor glue and proves properties of
it:

- **Commit-log parsing**, in two variants:
  - the NUL-terminated record scanner `parseGitCommits` (`src/ext/git.ts`);
  - the marker-delimited `log` of `src/git.ts`.
- **The tree builder** of `src/utils/build-tree.ts`.
- **The git manager's data shaping**:
  - parent and short hashes;
  - `diff --name-status` parsing;
  - the file comparator and sort;
  - command outcomes.
- **The relative-time unit choice** of `src/utils/date.ts`.
- **The avatar URL cache** and its GitHub and Gravatar sources.
- **The file decoration store.**
- **The change and commit tree nodes.**
- **Three refresh state machines**, one for each tree provider.

Each source file is one module:

| source | module | file |
|---|---|---|
| src/ext/git.ts | `CommitLog` | commit_log.dfy |
| src/git.ts | `MarkerLog` (`parseGitCommit`, the entry layout), `GitLog` (the `log` loop) | marker_log.dfy, git_log.dfy |
| src/utils/build-tree.ts | `BuildTree` | build_tree.dfy |
| src/git-manager.ts | `GitManager` | git_manager.dfy |
| src/utils/date.ts | `Date` | date.dfy |
| src/utils/avatars.ts | `Avatars` | avatars.dfy |
| src/decoration.ts | `Decoration` | decoration.dfy |
| src/nodes/change.ts | `ChangeNodes` | change_node.dfy |
| src/nodes/commit.ts | `CommitNodes` | commit_node.dfy |
| src/providers/base.ts, src/providers/git-commits.ts | `Providers` | providers.dfy |
| src/git-commits-provider.ts | `GitCommitsProvider` | git_commits_provider.dfy |

Two support modules hold shared definitions:

- `Wrappers` holds `Option` and `Result`.
- `JsStrings` models the JavaScript string built-ins the source relies on:
  - `indexOf`, `startsWith`, `endsWith`;
  - `replace` with a string pattern;
  - `split`, `join`, `trim`;
  - `<` on strings;
  - decimal `Number`.

The model follows the source's own form:

- State the source changes in place becomes a class with `modifies` clauses:
  - the `/g` regex's `lastIndex` (`CommitLog.CommitPattern`);
  - the avatar cache (`Avatars.AvatarCache`);
  - the decoration map (`Decoration.DecorationProvider`);
  - the commit objects `fetchCommits` mutates (`GitManager.ManagedCommit`);
  - the array `sortFiles` sorts (`GitManager.SortFiles`);
  - the providers' fields (`Providers.Provider`, `GitCommitsProvider.Provider`).
- Loops become methods. Each is proved against a specification function:
  - `CommitLog.ParseGitCommits` against `Parse`;
  - `GitLog.ReadEntries` against `LogFrom`;
  - `BuildTree.BuildStructure` against `Structure`;
  - `BuildTree.MakeTreeLoop` against `MakeTree`;
  - `CommitNodes.MakeChangeNodes` against `Decorated`;
  - `Providers.Provider.TrackRepositories` against `SelectionsEvents`.
- Pure derivations stay functions, and lemmas relate them:
  - the path, label and id rules;
  - the URL rules;
  - the unit choice.

Awaited results and editor events are parameters:

- the output of `git`;
- the repository list;
- a repository's HEAD and selection state;
- the merge commits and changes the manager returns.

`md5` and `encodeURIComponent` are function-valued parameters.

## Model

| member | source | states |
|---|---|---|
| CommitLog.LineEnd | src/ext/git.ts:3 | the end of a `(.*)` line: the first line terminator (`\n`, `\r`, U+2028, U+2029) at or after `i`, or the end of the input |
| CommitLog.NulFrom | src/ext/git.ts:3 | the lazy `[^]*?` before `\x00` stops at the first NUL from `i` on |
| CommitLog.MatchTail | src/ext/git.ts:3 | the tail of a match (parents line, optional message, NUL) ends just after a NUL |
| CommitLog.MatchAt | src/ext/git.ts:3 | a match starting at `p` ends just after a NUL |
| CommitLog.Search | src/ext/git.ts:3-18 | `exec` from `lastIndex`: the leftmost match at or after `from`, ending on a NUL |
| CommitLog.SearchIsLeftmost | src/ext/git.ts:18 | no match starts between `from` and the match `exec` returns, nor anywhere after `from` when it returns none |
| CommitLog.SearchNeedsNul | src/ext/git.ts:3-21 | input without a NUL after `from` holds no match |
| CommitLog.SecondsToDate | src/ext/git.ts:34-37 | an all-digit field `d` gives the date `d * 1000` ms, and the empty field gives `0` |
| CommitLog.FreshCopy | src/ext/git.ts:31-36 | the `' ' + x` then `substr(1)` copy is `x` |
| CommitLog.StripTrailingNewline | src/ext/git.ts:25-27 | exactly one trailing `\n` is removed, and nothing else changes |
| CommitLog.ParentList | src/ext/git.ts:33 | the parent list is empty exactly when the field is empty |
| CommitLog.ParentListJoin | src/ext/git.ts:33 | joining the parents with spaces gives back the field |
| CommitLog.ParentListOfJoin | src/ext/git.ts:33 | parents without spaces, joined and parsed, come back unchanged |
| CommitLog.ToCommit | src/ext/git.ts:23-38 | the record's hash, author name and email are the matched groups, and the message loses its trailing newline |
| CommitLog.ParseStep | src/ext/git.ts:17-39 | a match with a message contributes its record before all later records |
| CommitLog.PrependNothing | src/ext/git.ts:30 | prepending no records changes nothing |
| CommitLog.PrependTwice | src/ext/git.ts:30 | prepending twice is prepending the concatenation |
| CommitLog.CommitPattern.Exec | src/ext/git.ts:3-18 | returns the `Search` from `lastIndex`; sets `lastIndex` to the match end, or resets it to 0 on failure |
| CommitLog.ParseGitCommits | src/ext/git.ts:5-42 | the do-while loop returns `Parse(data, lastIndex)` and resets `lastIndex` to 0, unless a message-less match throws |
| CommitLog.ExpectedAll | src/ext/git.ts:30-38 | the records expected from commits, one per commit, in order |
| CommitLog.DateOfDigits | src/ext/git.ts:34 | the decimal text of `n` seconds gives `n * 1000` ms, in exact integers; JavaScript agrees while `n * 1000` stays within 8.64e15 ms |
| CommitLog.MatchEncoded | src/ext/git.ts:3-38 | a printable commit's encoding matches at its start, spans exactly its encoding and gives back that commit |
| CommitLog.ParseEncoded | src/ext/git.ts:3-39 | round trip: N concatenated encodings parse to exactly those N records, in order |
| CommitLog.ParseDropsFragment | src/ext/git.ts:3-21 | a trailing fragment without a NUL after the encodings is dropped |
| CommitLog.ParseWithoutNul | src/ext/git.ts:17-21 | input without a NUL, the empty string included, gives `[]` |
| CommitLog.MatchTailUndefined | src/ext/git.ts:3 | a parents line that runs straight into the NUL leaves the message group undefined |
| CommitLog.ParseThrowsOnUndefinedMessage | src/ext/git.ts:3-25 | a record whose message group is undefined makes the parse throw the `TypeError` of `message[message.length - 1]`, after all earlier records |
| MarkerLog.ReadFields | src/git.ts:18 | reading each field up to the first occurrence of its closer yields one field per closer; `Fits`, whether the rest of the pattern can still match, is its success |
| MarkerLog.ReadFieldsUncut | src/git.ts:18 | no field read up to the first occurrence of its closer contains that closer |
| MarkerLog.LastEnd | src/git.ts:18 | a greedy `(.+)?` group ends at the last place from which the rest of the pattern can still match: that place can end the group, no later one can, and none exists when it returns nothing |
| MarkerLog.GreedyFields | src/git.ts:18 | the greedy groups from `i` on yield one field per closer |
| MarkerLog.FitsEarlier | src/git.ts:18 | closers found in order from a position are found in order from any earlier position |
| MarkerLog.GreedyFits | src/git.ts:18 | the greedy groups match from `i` exactly when the closers occur in order from `i` |
| MarkerLog.MatchFields | src/git.ts:18-19 | a match of the pattern in the trimmed entry yields the six fields commit, subject, author, authorEmail, date, body |
| MarkerLog.FirstOpenDecides | src/git.ts:18-19 | when the pattern cannot match after the first `::commit::` line, it cannot match after any later one, so `exec` starts its match at the first |
| MarkerLog.MatchFieldsFits | src/git.ts:18-19 | the pattern matches exactly when the six closers follow the first opening line in order |
| MarkerLog.GreedyText | src/git.ts:18 | fields laid out with their closers are read back by the greedy groups when each closer occurs, from its field on, only right after that field |
| MarkerLog.LaidOutFields | src/git.ts:18-19 | fields laid out after the opening line, each closer occurring from its field on only right after it, are matched from the first opening line and read back |
| MarkerLog.FirstGroupEnds | src/git.ts:18 | a greedy group ends right after its field when its closer occurs nowhere later and the later closers follow in order |
| MarkerLog.ParseEntry | src/git.ts:17-21 | round trip: the entry printed for a `Printable` commit (no NUL; each field's closer occurs in the record, from that field on, only right after it) parses back to that commit |
| MarkerLog.EntryTrim | src/git.ts:19 | `trim` of a printed entry removes just its trailing newline |
| MarkerLog.BodyFields | src/git.ts:18 | the greedy pattern reads back the fields of the record printed for a `Printable` commit |
| MarkerLog.EntryReadable | src/git.ts:17-46 | the entry printed for a `Printable` commit has no NUL, does not start with a newline, and parses back to its commit |
| GitLog.EntryEnd | src/git.ts:37-40 | the end of an entry lies between the cursor and the end of stdout |
| GitLog.EntryEndIsIndexOf | src/git.ts:37-40 | the end of an entry is `indexOf('\x00\x00', index)`, or `s.length` when there is none |
| GitLog.DropLeadingNewline | src/git.ts:43-45 | exactly one leading `\n` is removed, and nothing else changes |
| GitLog.LogStep | src/git.ts:36-52 | an entry that fails to parse ends the log; one that parses comes first, before the log from `nextIndex + 2` |
| GitLog.LogPast | src/git.ts:36 | a cursor at or past the end of stdout reads nothing |
| GitLog.Log | src/git.ts:24-55 | a non-zero exit code gives `[]`; empty stdout gives `[]`; otherwise the entries of `LogFrom`, in order |
| GitLog.ReadEntries | src/git.ts:33-55 | the `while` loop returns `LogFrom(s, 0)` |
| GitLog.NulPairText | src/git.ts:37 | an entry ends at the first `\x00\x00` after it |
| GitLog.NoNulPair | src/git.ts:37-40 | without `\x00\x00`, the entry runs to the end of stdout |
| GitLog.LogReadsRecord | src/git.ts:36-52 | an entry, with or without a leading newline, that reads as commit `c` contributes `c` and moves the cursor past its `\x00\x00` |
| GitLog.LogReadsPrinted | src/git.ts:36-52 | readable entries in a row contribute their commits, in order |
| GitLog.PrintedRoundTrip | src/git.ts:36-55 | for any entry reader, the output printed for readable entries reads back to their commits |
| GitLog.LogRoundTrip | src/git.ts:24-55 | round trip: git's output for `Printable` commits (no NUL; each field's closer occurs in its record, from that field on, only right after it) logs back to exactly those commits |
| GitLog.LogStopsAtFailure | src/git.ts:46-51 | the first entry that fails to parse stops the loop; earlier commits are kept and later ones dropped |
| GitLog.LogReadsUnterminatedLast | src/git.ts:37-42 | a last entry without `\x00\x00` is still parsed |
| GitLog.Entries | src/git.ts:24 | one printed entry per commit |
| GitLog.EntriesRead | src/git.ts:36-52 | for any entry reader, commits each read back from their own entry are read back, in order, from the entries of all of them |
| GitLog.EntriesReadable | src/git.ts:17-52 | `parseGitCommit` reads every `Printable` commit back from its own entry, in order |
| BuildTree.FolderNames | src/utils/build-tree.ts:14-21 | the folder chain of a path; no name holds a `/` |
| BuildTree.FolderNamesOf | src/utils/build-tree.ts:14-21 | the chain of `root/seg1/…/segN/file` is `seg1 … segN`: the first and last pieces are dropped |
| BuildTree.FindSub | src/utils/build-tree.ts:24-29 | finds the sub-folder entry with a given name, if there is one |
| BuildTree.FindFiles | src/utils/build-tree.ts:31-33 | finds the `FILES` bucket, if there is one |
| BuildTree.BuildStructure | src/utils/build-tree.ts:11-36 | the `forEach` loop returns `Structure(nodes, rootPath)` |
| BuildTree.PlaceNoUri | src/utils/build-tree.ts:14-18 | a node without a `resourceUri` changes nothing |
| BuildTree.Leaves | src/utils/build-tree.ts:51-52 | the files of a bucket become leaves, in insertion order |
| BuildTree.MakeEntriesSnoc | src/utils/build-tree.ts:44-60 | children follow key-insertion order: one more key appends its subtree |
| BuildTree.MakeTreeLoop | src/utils/build-tree.ts:41-63 | `makeTree`'s loop over the keys returns `MakeTree(d, parentId)` |
| BuildTree.Build | src/utils/build-tree.ts:6-39 | `buildTree` returns `MakeTree(Structure(nodes, rootPath), parentId)` |
| BuildTree.AddFileLazy | src/utils/build-tree.ts:31-35 | adding a file keeps every folder non-empty and leaves the folder it lands in non-empty |
| BuildTree.DescendLazy | src/utils/build-tree.ts:23-35 | walking and creating folders keeps every folder non-empty |
| BuildTree.StructureLazy | src/utils/build-tree.ts:11-36 | folders are created lazily: every folder of the structure is non-empty |
| BuildTree.MakeTreeFilled | src/utils/build-tree.ts:41-63 | a structure without empty folders gives a tree without empty folders |
| BuildTree.BuildTreeFilled | src/utils/build-tree.ts:6-39 | every folder `buildTree` produces has children |
| BuildTree.StructureKeyed | src/utils/build-tree.ts:24-33 | every folder holds each name and the `FILES` bucket at most once, and each bucket holds each node at most once |
| BuildTree.StructureHolds | src/utils/build-tree.ts:11-36 | the structure holds exactly the nodes that have a `resourceUri` |
| BuildTree.LeafListAppend | src/utils/build-tree.ts:52-54 | the leaves of two tree lists side by side are their leaves concatenated |
| BuildTree.LeafListLeaves | src/utils/build-tree.ts:51-52 | the leaves of a bucket are its nodes |
| BuildTree.MakeTreeHolds | src/utils/build-tree.ts:41-63 | a node is a leaf of the tree exactly when the structure holds it |
| BuildTree.StructureAlong | src/utils/build-tree.ts:14-35 | a node sits only in the bucket at the end of its own folder chain |
| BuildTree.MakeTreeOnce | src/utils/build-tree.ts:41-63 | a keyed structure whose nodes sit along their chains gives each leaf once |
| BuildTree.BuildTreeLeaves | src/utils/build-tree.ts:6-63 | the leaves of `buildTree` are exactly the distinct input nodes with a `resourceUri`, each once |
| BuildTree.PresentNodes | src/utils/build-tree.ts:14-35 | the distinct nodes with a `resourceUri`, in first-insertion order |
| BuildTree.FlatStructure | src/utils/build-tree.ts:20-35 | when every node lies directly under the root, the structure is one `FILES` bucket |
| BuildTree.FlatTree | src/utils/build-tree.ts:20-52 | when every node lies directly under the root, the tree is those nodes in input order, with no folders |
| BuildTree.MakeTreeIds | src/utils/build-tree.ts:55 | every folder's contents get the id chain `(parentId \|\| "") + "->" + name` |
| BuildTree.RemoveArrowsAppend | src/utils/build-tree.ts:55 | the `->` count is additive over concatenation |
| BuildTree.IdArrows | src/utils/build-tree.ts:55 | each level adds exactly one `->`, so same-named folders at different depths get distinct chains |
| GitManager.Take | src/git-manager.ts:56-57 | `substr(0, n)`: a prefix of length `min(n, |s|)` |
| GitManager.Shifted | src/git-manager.ts:55 | `shift` removes the first parent, if any |
| GitManager.ParentHash | src/git-manager.ts:55 | the first original parent, or the commit's own hash when there is none or it is empty |
| GitManager.ManagedCommit.Shape | src/git-manager.ts:55-57 | the fields one `map` step writes: parents shifted, `parentHash`, `shortHash`, `parentShortHash` |
| GitManager.MergeAfterShift | src/git-manager.ts:55 | after the shift, parents remain exactly when there were at least two |
| GitManager.LogOutcome | src/git-manager.ts:49-52 | an error ending with `does not have any commits yet` gives `[]`; other errors propagate; a log is kept |
| GitManager.FetchCommits | src/git-manager.ts:48-61 | shapes every commit of the log in place and returns the outcome |
| GitManager.ActionFor | src/git-manager.ts:22-74 | `A`, `M` and `D` map to added, modified and deleted; any other code git prints, `R100` and `C` included, to renamed |
| GitManager.ActionLetter | src/git-manager.ts:22-74 | each action's own letter maps back to it |
| GitManager.ToFile | src/git-manager.ts:67-76 | `relatedRelPath` is field 2; `relPath` is field 3 when present and non-empty, otherwise field 2 |
| GitManager.NonBlankLines | src/git-manager.ts:65 | `filter(Boolean)` keeps exactly the non-empty lines, and keeps all lines when none is empty |
| GitManager.LinesToFiles | src/git-manager.ts:65-77 | one file per line |
| GitManager.NameStatusRoundTrip | src/git-manager.ts:63-77 | round trip: `diff --name-status` output printed for changes (each status a capital letter and an optional score) parses back to those changes' files, in order |
| GitManager.LinesShape | src/git-manager.ts:65 | the printed lines split back on `\n` |
| GitManager.TextTrimmed | src/git-manager.ts:65 | `trim` leaves printed name-status output unchanged |
| GitManager.ParseLines | src/git-manager.ts:65-77 | trimmed output whose lines are non-empty parses to the files of those lines |
| GitManager.FirstLess | src/git-manager.ts:142 | the first index where the part of `a` is `<` the part of `b` |
| GitManager.Compare | src/git-manager.ts:135-143 | the comparator returns `-1` or `1`, never `0` |
| GitManager.CompareDepth | src/git-manager.ts:139-140 | a path with more `/`-segments comes first, in both argument orders |
| GitManager.CompareEqualDepth | src/git-manager.ts:142 | at equal depth, `-1` exactly when there is a first index with `a[i] < b[i]` and that part of `a` is non-empty |
| GitManager.CompareSelf | src/git-manager.ts:142 | a path compared with itself gives `1`, not `0` |
| GitManager.CompareBothWays | src/git-manager.ts:142 | `"a/z"` and `"b/a"` each come before the other, so the comparator is inconsistent |
| GitManager.CompareFiles | src/git-manager.ts:135-143 | the comparator on files, by `relPath`: `-1` or `1` |
| GitManager.SortFiles | src/git-manager.ts:134-144 | sorting in place leaves a permutation of the files |
| GitManager.Swap | src/git-manager.ts:135 | exchanges two files and keeps the multiset |
| GitManager.SortParsed | src/git-manager.ts:79-144 | `sortFiles` calls the comparator, and so throws, exactly when there are two or more files and one has no `relPath`; otherwise returns a permutation of its input |
| GitManager.FetchCommitFiles | src/git-manager.ts:63-105 | throws exactly when some parsed line has no `relPath`, whatever the number of files, because `getCommitFileUri` passes `undefined` to `path.join`; otherwise a permutation of the parse |
| GitManager.PrintedHavePaths | src/git-manager.ts:63-80 | output git prints for its changes never makes `fetchCommitFiles` throw |
| GitManager.ExecOutcome | src/git-manager.ts:119-129 | resolves with stdout exactly when there is no error and stderr is empty; a `Command failed:` error rejects with stderr; other errors reject unchanged |
| GitManager.StderrRejects | src/git-manager.ts:128 | a non-empty stderr rejects even when exec succeeded |
| Date.WeeksUp | src/utils/date.ts:41-43 | `⌈n/7⌉` |
| Date.SelectUnit | src/utils/date.ts:13-71 | never `quarter`; the value is `>= 0` for a future date and `<= 0` otherwise |
| Date.FirstNonZero | src/utils/date.ts:23-70 | the index of the first non-zero component |
| Date.UnitIsFirstNonZero | src/utils/date.ts:23-70 | the unit is that of the first non-zero component among years, months, days, hours, minutes, else `second` |
| Date.LeadingIndex | src/utils/date.ts:23-70 | the first non-zero component in the cascade's order |
| Date.ValueIsSignedAmount | src/utils/date.ts:21-70 | the value is the chosen amount, negated for a past date |
| Date.FloorOfNegated | src/utils/date.ts:43 | `Math.floor(-d/7) == -⌈d/7⌉` |
| Date.Symmetric | src/utils/date.ts:21-70 | future and past give the same unit and opposite values |
| Date.Weeks | src/utils/date.ts:37-45 | over six days gives `week`, with magnitude `⌈days/7⌉` in both directions |
| Date.Now | src/utils/date.ts:67-70 | all-zero components give `second`, value 0; for a past date JavaScript's value is `-0`, which the model does not tell apart from 0 |
| Avatars.DigitRun | src/utils/avatars.ts:11 | the longest leading run of digits (`^(\d+)`) |
| Avatars.FirstOf | src/utils/avatars.ts:11 | the first index of a character, if any |
| Avatars.NoreplyOf | src/utils/avatars.ts:11 | `digits+name@domain` matches exactly when the domain matches, and then yields `digits` |
| Avatars.NoreplyShape | src/utils/avatars.ts:11 | every match has the form `digits+name@domain`, with no `@` in `name` |
| Avatars.StrictDomain | src/utils/avatars.ts:11 | with escaped dots, only `users.noreply.github.com` matches |
| Avatars.UnescapedDots | src/utils/avatars.ts:11 | with the dots as written, a domain that differs from `users.noreply.github.com` still matches |
| Avatars.LookAlikeDomain | src/utils/avatars.ts:11 | `users-noreply-github-com` is such a domain |
| Avatars.Github | src/utils/avatars.ts:10-18 | a no-reply email gives `…/u/<digits>?s=20`; any other gives `…/u/e?email=<encoded>&s=20` |
| Avatars.GithubNoreply | src/utils/avatars.ts:11-14 | `<digits>+<name>@users.noreply.github.com` gives `…/u/<digits>?s=20` |
| Avatars.GithubAsWritten | src/utils/avatars.ts:10-18 | as written: an email matching with unescaped dots gives `…/u/<digits>?s=20`; any other gives `…/u/e?email=<encoded>&s=20` |
| Avatars.LooseNoreplyDomain | src/utils/avatars.ts:11 | `users.noreply.github.com` itself matches the domain as written |
| Avatars.GithubAsWrittenNoreply | src/utils/avatars.ts:11-14 | as written too, `<digits>+<name>@users.noreply.github.com` gives `…/u/<digits>?s=20` |
| Avatars.GithubAsWrittenLookAlike | src/utils/avatars.ts:11-14 | as written, a look-alike domain gets the no-reply URL, which the corrected rule withholds |
| Avatars.NoreplyLooser | src/utils/avatars.ts:11 | every match with literal dots is a match as written, with the same digits |
| Avatars.GithubAgrees | src/utils/avatars.ts:10-18 | the as-written and corrected rules give the same URL for every email but a look-alike address |
| Avatars.Gravatar | src/utils/avatars.ts:20-23 | a Gravatar URL starts with the Gravatar prefix and never with the GitHub avatar prefix |
| Avatars.GravatarByDigest | src/utils/avatars.ts:20-23 | two emails get the same Gravatar URL exactly when their MD5 digests agree |
| Avatars.SourceFor | src/utils/avatars.ts:9-31 | the source found by name, else the default: `github` exactly for `github`, the inherited `Object` exactly for `constructor`, gravatar for everything else, absent included |
| Avatars.OwnSourceFor | src/utils/avatars.ts:9-31 | the intended lookup of own keys only: never `Object`, `github` exactly for `github`, and the same as `SourceFor` on every other name |
| Avatars.SourceUrl | src/utils/avatars.ts:10-31 | `github` gives a GitHub avatar URL, gravatar a Gravatar one, and `Object(email)` the email text itself |
| Avatars.IntendedUrl | src/utils/avatars.ts:10-31 | the intended URL: the corrected GitHub rule for `github`, Gravatar for any other name |
| Avatars.AsWrittenAsIntended | src/utils/avatars.ts:9-31 | as written and as intended agree for every source name but `constructor`, and for every email but a look-alike address under `github` |
| Avatars.AvatarCache.GetAvatarUrl | src/utils/avatars.ts:28-36 | a cached email returns its value whatever the source, cache unchanged; a miss computes the value as written (`SourceUrl`) and stores it under the email, other entries unchanged |
| Decoration.Lookup | src/decoration.ts:27-29 | present exactly when the key is stored, and then the stored decoration |
| Decoration.LookupStored | src/decoration.ts:17-29 | after `set(u, d)`, `provideFileDecoration(u)` is `d`; after `set(u, undefined)` it is undefined |
| Decoration.StoredOthers | src/decoration.ts:17-22 | `set` leaves the entries of all other keys unchanged |
| Decoration.StoredTwice | src/decoration.ts:17-22 | the second `set` of a key overrides the first |
| Decoration.DecorationProvider.Set | src/decoration.ts:17-25 | stores or deletes the entry under the URI string, and fires exactly one event for the URI |
| Decoration.DecorationProvider.ProvideFileDecoration | src/decoration.ts:27-29 | the stored decoration for the URI string |
| Decoration.Decorators.constructor | src/decoration.ts:32-33 | two distinct, empty stores |
| ChangeNodes.StatusEntry | src/nodes/change.ts:11-38 | only added, modified, deleted and renamed have a badge |
| ChangeNodes.StatusBadgesDistinct | src/nodes/change.ts:11-16 | the four badges differ |
| ChangeNodes.RelPathBelowRoot | src/nodes/change.ts:29-32 | a path below `<rootPath>/` gives the root-relative path |
| ChangeNodes.RelPathElsewhere | src/nodes/change.ts:29-32 | a path without `<rootPath>/` is kept unchanged |
| ChangeNodes.LabelDescription | src/nodes/change.ts:39-48 | the label is the last `/`-segment; with a `/`, `description + "/" + label == relPath`, and otherwise the description is empty |
| ChangeNodes.NewChangeNode | src/nodes/change.ts:22-57 | fails exactly for a status without a badge, leaving the decorator alone; otherwise stores the status badge under `change.uri`, fires once, and builds the node |
| ChangeNodes.DecoratedWithStatus | src/nodes/change.ts:41-44 | after the constructor, the change decorator provides the status's badge for `change.uri` |
| ChangeNodes.IdsDistinct | src/nodes/change.ts:46 | nodes with different relative paths under one parent get different ids |
| CommitNodes.FindOrigin | src/nodes/commit.ts:86 | the first remote named `origin`, if any |
| CommitNodes.RemoteUrlChoice | src/nodes/commit.ts:84-87 | the fetch URL of `origin` if present, else of the first remote; `""` with no remote or no fetch URL |
| CommitNodes.HostRun | src/nodes/commit.ts:88 | the longest leading run of `[a-z0-9+-]` |
| CommitNodes.DelimiterEnd | src/nodes/commit.ts:88 | the end of a `//` or `@` at the position |
| CommitNodes.HostAt | src/nodes/commit.ts:88 | a host found at a position follows a `//` or `@` there and has the form `[a-z][a-z0-9+-]+` |
| CommitNodes.HostAtPosition | src/nodes/commit.ts:88 | that host is the text right after the delimiter, and the greedy run stops at a non-host character or the end |
| CommitNodes.FirstHost | src/nodes/commit.ts:88-89 | the leftmost position where a host follows a delimiter |
| CommitNodes.HostOf | src/nodes/commit.ts:88-93 | the host of the leftmost match, if any, is a valid host |
| CommitNodes.HostRunOf | src/nodes/commit.ts:88 | the host run of `host + rest` is `host`, when `rest` does not continue it |
| CommitNodes.HostAfterPrefix | src/nodes/commit.ts:88-93 | a URL `prefix + delimiter + host + rest`, with no `/` or `@` in the prefix, gives `host` (so `git@github.com:x` gives `github`) |
| CommitNodes.NoDelimiterNoHost | src/nodes/commit.ts:88-93 | a URL without `//` or `@` has no host |
| CommitNodes.CommitNode.constructor | src/nodes/commit.ts:18-44 | the node keeps its commit, parent id, view mode and icon; its id and merge flag are derived |
| CommitNodes.NewCommitNode | src/nodes/commit.ts:18-44 | an icon exactly when the author email is non-empty; a cached email reuses its URL; a miss computes the URL from the remote host and caches it |
| CommitNodes.GithubRemoteAvatar | src/nodes/commit.ts:39-94 | with a `github` remote, a no-reply author email gets the GitHub avatar |
| CommitNodes.ConstructorHost | src/nodes/commit.ts:83-94 | the fetch URL `https://constructor.example.org/r.git` gives the host `constructor` |
| CommitNodes.ConstructorRemoteAvatar | src/nodes/commit.ts:39-43 | a remote on the host `constructor` makes the computed icon the author's email text, where the intended rule gives the Gravatar URL |
| CommitNodes.CommitNode.GetChildren | src/nodes/commit.ts:53-81 | merge commits as merge children, with `parentId = this.id`; each icon the cached avatar of its author's email, the cache gaining exactly the new emails with the values their remote host computes; otherwise change nodes under `this.id`, as a list or through `buildTree(…, rootPath, this.id)`; fails at the first unknown status |
| CommitNodes.FirstUnknown | src/nodes/commit.ts:67-70 | the first change whose status has no badge |
| CommitNodes.Uris | src/nodes/commit.ts:67-70 | the URIs the change decorator is told about, in order |
| CommitNodes.EmailsNext | src/nodes/commit.ts:39-64 | each merge child adds its non-empty email to the cached set |
| CommitNodes.MakeCommitNodes | src/nodes/commit.ts:39-64 | one node per merge commit, in order, each icon the cached avatar of its author's email and none for an empty email; the cache gains exactly their emails, each with the value its remote host computes, and keeps its old entries |
| CommitNodes.FirstUnknownAt | src/nodes/commit.ts:67-70 | the first unknown status is the one `map` throws at |
| CommitNodes.MakeChangeNodes | src/nodes/commit.ts:67-70 | one node per change, in order; the decorator gets each change until the first unknown status, which fails |
| CommitNodes.DecoratedLast | src/nodes/commit.ts:67-70 | the last change of a URI decides its badge |
| CommitNodes.DecoratedOthers | src/nodes/commit.ts:67-70 | URIs of no change keep their decorations |
| CommitNodes.ChangeTreeLeaves | src/nodes/commit.ts:72-78 | the tree's leaves are exactly the change nodes, each once |
| Providers.HeadCommit | src/providers/git-commits.ts:36-38 | no HEAD gives no commit |
| Providers.Provider.constructor | src/providers/base.ts:12-14 | no manager, no observer, nothing shown |
| Providers.Provider.Refresh | src/providers/base.ts:16-18 | fires one refresh and changes nothing else |
| Providers.Provider.OnRepositoryChange | src/providers/base.ts:28 | the commits view records the head without refreshing; the base does nothing |
| Providers.Provider.OnStateChange | src/providers/base.ts:30-32 | the base refreshes; the commits view, on the recorded head, changes nothing, and on a different head records it and refreshes exactly once: one step of `AfterHeads` |
| Providers.Provider.ObserveRepositoryState | src/providers/base.ts:41-45 | the old observer is disposed before the new one is registered, so exactly one observer is live |
| Providers.Provider.OnSelectedRepository | src/providers/base.ts:34-39 | a new manager for the repository, the head recorded, the observer moved, one refresh, in that order |
| Providers.Provider.StateChanged | src/providers/base.ts:44 | only the live observer's repository reaches `onStateChange`; in the commits view the head and the refresh count then follow one step of `AfterHeads` |
| Providers.AfterOneHead | src/providers/git-commits.ts:16-25 | one state change records a different head and refreshes once, and leaves an equal head alone |
| Providers.Provider.UiChanged | src/providers/base.ts:51-61 | only a selected repository is selected; any other changes nothing |
| Providers.Provider.TrackRepositories | src/providers/base.ts:47-54 | the repositories selected at start are selected in turn, so the last of them is followed |
| Providers.SelectRefreshesOnce | src/providers/base.ts:34-39 | each selection refreshes exactly once |
| Providers.OneRefreshPerSelection | src/providers/base.ts:34-54 | tracking refreshes once per selected repository |
| Providers.RefreshesAtMoves | src/providers/git-commits.ts:16-25 | over any run of state changes, the commits view refreshes exactly when HEAD moved, and records the last head |
| Providers.UnchangedHeadNoRefresh | src/providers/git-commits.ts:16-25 | a run of state changes with the recorded head refreshes nothing |
| GitCommitsProvider.MakeItem | src/git-commits-provider.ts:55-64 | labelled by the message; a tooltip (the email) and a Gravatar icon exactly when the email is non-empty |
| GitCommitsProvider.Items | src/git-commits-provider.ts:45-47 | one item per log entry, in order |
| GitCommitsProvider.Alternation | src/git-commits-provider.ts:10-26 | from a refresh, state changes alternate swallowed and refreshing: `n / 2` of `n` refresh |
| GitCommitsProvider.Provider.constructor | src/git-commits-provider.ts:9-10 | no observer, `wasRefresh` set |
| GitCommitsProvider.Provider.ObserveRepositoryState | src/git-commits-provider.ts:12-21 | registers one more observer on the repository |
| GitCommitsProvider.Provider.Refresh | src/git-commits-provider.ts:23-26 | sets `wasRefresh` and fires once |
| GitCommitsProvider.Provider.StateChanged | src/git-commits-provider.ts:13-20 | one step of the alternation: set flag cleared without refresh, cleared flag refreshes |
| GitCommitsProvider.Provider.GetChildren | src/git-commits-provider.ts:32-52 | `[]` unless the extension is active with exactly one repository; then the observer is installed at most once and the log is listed |
| JsStrings.IndexOf | src/git.ts:37 | `indexOf`: the first occurrence at or after `from` |
| JsStrings.ReplaceFirst | src/nodes/change.ts:29-36 | `replace` with a string pattern replaces its first occurrence only |
| JsStrings.JoinSplit | src/nodes/change.ts:39-48 | splitting on a character and joining with it gives back the string |
| JsStrings.SplitJoin | src/ext/git.ts:33 | joining pieces without the separator and splitting gives back the pieces |
| JsStrings.TrimEndWhitespace | src/git.ts:19 | `trim` removes trailing whitespace after a non-blank end |
| JsStrings.LessIrreflexive | src/git-manager.ts:142 | no string is `<` itself |
| JsStrings.DecimalRoundTrip | src/ext/git.ts:34-37 | `Number` of the decimal text of `n` is `n`, in exact integers; JavaScript's `Number` agrees for `n < 2^53` |

## Left out

- Process execution is left out:
  - `run`/`git.exec` (src/git.ts:12-15);
  - `exec` and `executeGitCommand` (src/git-manager.ts:44-46, 117-132), except the outcome classification in `GitManager.ExecOutcome`;
  - `revertFile` and `compareCommitFileAgainstPrevious`, which only shell out to git or open the diff viewer.
- URIs are plain strings. Left out with them:
  - `getCommitFileUri` and `toGitUri`'s JSON query (src/git-manager.ts:103-115), except the `TypeError` of `path.join` on a missing `relPath`, which `GitManager.FetchCommitFiles` returns;
  - the `uri` and `commit` fields of a `CommitFile`.
- Promises become parameters:
  - the awaited results of `repository.log`, `fetchMergeCommits` and `fetchCommitChanges`;
  - the repositories of the git API.
- The clock, date-fns `intervalToDuration` and `Intl.RelativeTimeFormat` are left out.
  - `Date.SelectUnit` takes the duration and the future flag as inputs.
  - The commit node's description and tooltip text, which format them, are not modelled.
- `md5`, `createHash` and `encodeURIComponent` are function parameters with no properties.
- The tree-item display fields are not modelled: collapsible state, context values, commands, theme icons and `emptyMessage`.
  - The same goes for the base provider's `getTreeItem` (the identity) and `getChildren` (always `[]`).
  - The same goes for the commits view's `getTreeItems`, which maps `fetchCommits(30)` to commit nodes; `Providers.CommitsShown` records the 30.
- `Status` is reduced to the four badge-carrying statuses and `OtherStatus`. src/ext/git.d.ts is not part of this model.
- `GitManager.SortFiles` promises a permutation and nothing about order.
  - `Array.prototype.sort` with an inconsistent comparator is implementation-defined.
  - It is an insertion sort using the source's comparator.
- `GitManager.FetchCommits` requires the log's commit objects to be distinct.
  - The same object twice would be shifted twice.
  - `repository.log` returns fresh objects.
- `CommitLog.SecondsToDate`: a date field that is neither empty nor all digits is kept as unparsed text. The model does not produce JavaScript's `NaN` date or number formats such as `1e3`, `-0` or surrounding spaces.
- `CommitLog.SecondsToDate` multiplies exact integers. JavaScript's `Number` rounds above 2^53, and `new Date` is an Invalid Date beyond 8.64e15 ms, that is for fields above 8640000000000 seconds. Neither is modelled.
- `CommitLog.DateOfDigits` holds for every `n` in the model; in JavaScript it holds only up to 8640000000000 seconds.
- `JsStrings.DecimalRoundTrip` reads decimal text as an exact integer. JavaScript's `Number` agrees only below 2^53.
- `Date.SelectUnit` negates with integers. In the source `-(duration.seconds || 0)` is `-0` for a past date less than a second away, and `Intl.RelativeTimeFormat` prints `-0` differently from `0`. The model gives 0.
- `Date.Now` states value 0 for both directions for the same reason.
- `GitManager.ActionFor` treats every code other than `A`, `M` and `D` as renamed. The source looks codes up in an object literal, so names inherited from `Object.prototype` (`constructor`, `toString`, `valueOf`, `__proto__`, …) find a truthy value instead. git never prints such a code: its statuses are a capital letter and an optional score, which `GitManager.Printable` requires.
- `MarkerLog.Printable` is a sufficient condition, stated on the printed record rather than on the fields alone.
  - A commit fails it when a field holds its own closer or an earlier field's closer, for example a subject holding `\n::commit::\n::subject::\n`. The greedy groups can then read different fields.
  - Which commits git can print that fail it is not derived.
- `Avatars.SourceFor` knows only `constructor` among the names `sources` inherits from `Object.prototype`. The others (`toString`, `valueOf`, `__proto__`, …) are treated as unknown names. Each holds an upper-case letter or `_`, which a remote host never contains.
- The `String` wrapper `Object(email)` returns is modelled as the email text. `vscode.Uri.parse` of the icon value is not modelled.
- `JsStrings.Less` compares by code point, where JavaScript compares UTF-16 code units. The two differ only outside the Basic Multilingual Plane.
- Both the base provider and the commits view are one class, `Providers.Provider`, with a `kind` tag instead of inheritance.
  - The constructor leaves `trackRepositories` to a separate call.
  - A class-field semantics that resets `currentHead` after `super()` is not modelled.
- `Providers.Provider.TrackRepositories` does not state `currentHead` after tracking.
- The listener registrations of `trackRepositories` (src/providers/base.ts:51-53, 56-62) are not state in the model. Their effect is the `UiChanged` method, which both kinds of event call.
- `FolderNode` (src/nodes/folder.ts) ignores its third `{ parentId }` argument. A folder in `BuildTree.Tree` holds only its name and children.
- JavaScript `Map` keys in the nested structure are by identity for nodes. `BuildTree.Node` values stand for distinct node objects through their `id`.

## Findings

The avatar cache and the commit nodes follow the source as written. Each corrected member states the intended rule beside it, and `Avatars.AsWrittenAsIntended` shows where the two part.

| source | as written | input that shows it | evidently intended | confidence | as-written member | corrected member |
|---|---|---|---|---|---|---|
| src/utils/avatars.ts:11 | the dots of `users.noreply.github.com` in the regex are unescaped, so each matches any character except a line terminator | `1+a@users-noreply-github-com` is taken for a GitHub no-reply address and gets `https://avatars.githubusercontent.com/u/1?s=20` | only the literal domain `users.noreply.github.com` matches | not executed | Avatars.GithubAsWrittenLookAlike | Avatars.Github |
| src/utils/avatars.ts:31 | `sources[source]` looks the host name up on an object literal, so inherited properties are found too | a remote `https://constructor.example.org/r.git` gives the host `constructor`; `sources.constructor` is `Object`, and the icon becomes the author's email text | only `github` and `gravatar` are sources; every other name falls back to gravatar | not executed | CommitNodes.ConstructorRemoteAvatar | Avatars.OwnSourceFor |
