/**
 * The loop of `log` (src/git.ts): the output of git is cut into entries at
 * each pair of NULs, each entry is read by `parseGitCommit`, and the loop
 * stops at the first entry that does not parse.
 *
 * The loop is stated for any entry reader: it only ever hands the reader
 * one entry and looks at whether a commit came back. `Log` and the
 * corollaries at the end of this module use `ParseGitCommit`.
 */
module GitLog {
  import opened Wrappers
  import opened JsStrings
  import opened MarkerLog

  /** How the loop reads one entry; `log` reads with `parseGitCommit`. */
  type Reader = string -> Option<Commit>

  /** The index where the entry starting at `index` ends: the next "\0\0", or the end of the output. */
  function EntryEnd(s: string, index: nat): (n: nat)
    requires index <= |s|
    ensures index <= n <= |s|
    decreases |s| - index
  {
    if index + 2 > |s| then |s|
    else if s[index] == '\0' && s[index + 1] == '\0' then index
    else EntryEnd(s, index + 1)
  }

  /** `EntryEnd` is what `stdout.indexOf('\0\0', index)` finds, or the end of the output when it finds nothing. */
  lemma {:induction false} EntryEndIsIndexOf(s: string, index: nat)
    requires index <= |s|
    ensures EntryEnd(s, index) == match IndexOf(s, "\0\0", index) case Some(n) => n case None => |s|
    decreases |s| - index
  {
    if index + 2 <= |s| {
      var w := s[index..index + 2];
      assert w[0] == s[index] && w[1] == s[index + 1];
      if s[index] == '\0' && s[index + 1] == '\0' {
        assert w == "\0\0";
      } else {
        assert w != "\0\0";
        EntryEndIsIndexOf(s, index + 1);
      }
    }
  }

  /** `entry.startsWith('\n') ? entry.substring(1) : entry`. */
  function DropLeadingNewline(e: string): (r: string)
    ensures if e != [] && e[0] == '\n' then "\n" + r == e else r == e
  {
    if StartsWith(e, "\n") then e[1..] else e
  }

  /** The commits the loop of `log` collects from `index` of the output on, reading entries with `read`. */
  function LogFrom(s: string, index: nat, read: Reader): seq<Commit>
    decreases |s| - index, 1
  {
    if index >= |s| then [] else LogEntry(s, index, EntryEnd(s, index), read)
  }

  /** The entry from `index` to `next` either stops the loop or gives the next commit. */
  function LogEntry(s: string, index: nat, next: nat, read: Reader): seq<Commit>
    requires index <= next <= |s|
    decreases |s| - index, 0
  {
    match read(DropLeadingNewline(s[index..next]))
    case None => []
    case Some(c) => [c] + LogFrom(s, next + 2, read)
  }

  /** One turn of the loop of `log`: the entry at `index` either stops it or gives the next commit. */
  lemma LogStep(s: string, index: nat, next: nat, entry: string, read: Reader, r: Option<Commit>)
    requires index < |s| && next == EntryEnd(s, index)
    requires entry == DropLeadingNewline(s[index..next]) && r == read(entry)
    ensures r.None? ==> LogFrom(s, index, read) == []
    ensures r.Some? ==> LogFrom(s, index, read) == [r.value] + LogFrom(s, next + 2, read)
  {
  }

  /** Past the end of the output the loop collects nothing. */
  lemma LogPast(s: string, index: nat, read: Reader)
    requires index >= |s|
    ensures LogFrom(s, index, read) == []
  {
  }

  lemma Regroup<T>(a: seq<T>, b: seq<T>, c: seq<T>)
    ensures a + b + c == a + (b + c)
  {
  }

  /** The loop keeps what it has collected in front of what is left to collect. */
  lemma Advance<T>(done: seq<T>, x: T, here: seq<T>, later: seq<T>, all: seq<T>)
    requires done + here == all && here == [x] + later
    ensures done + [x] + later == all
  {
    Regroup(done, [x], later);
  }

  /** Nothing left to collect: what was collected is all there is. */
  lemma Settle<T>(done: seq<T>, here: seq<T>, all: seq<T>)
    requires done + here == all && here == []
    ensures done == all
  {
    assert done + [] == done;
  }

  /**
   * `log(repository)` once git has run: a non-zero exit code gives no
   * commits; otherwise entries are parsed in order until one fails.
   */
  method Log(exitCode: int, stdout: string) returns (result: seq<Commit>)
    ensures exitCode != 0 ==> result == []
    ensures exitCode == 0 ==> result == LogFrom(stdout, 0, ParseGitCommit)
    ensures stdout == [] ==> result == []
  {
    if exitCode != 0 {
      return [];
    }
    result := ReadEntries(stdout, ParseGitCommit);
  }

  /** The loop of `log`: entries are cut at "\0\0", read in order, and the first one `read` rejects stops it. */
  method ReadEntries(s: string, read: Reader) returns (result: seq<Commit>)
    ensures result == LogFrom(s, 0, read)
  {
    result := [];
    var index: nat := 0;
    ghost var all := LogFrom(s, 0, read);
    while index < |s|
      invariant result + LogFrom(s, index, read) == all
      decreases |s| - index
    {
      var found := IndexOf(s, "\0\0", index);
      var nextIndex := if found.Some? then found.value else |s|;
      EntryEndIsIndexOf(s, index);
      var entry := s[index..nextIndex];
      if StartsWith(entry, "\n") {
        entry := entry[1..];
      }
      var commit := read(entry);
      LogStep(s, index, nextIndex, entry, read, commit);
      if commit.None? {
        Settle(result, LogFrom(s, index, read), all);
        break;
      }
      Advance(result, commit.value, LogFrom(s, index, read), LogFrom(s, nextIndex + 2, read), all);
      result := result + [commit.value];
      index := nextIndex + 2;
    }
    if index >= |s| {
      LogPast(s, index, read);
      Settle(result, LogFrom(s, index, read), all);
    }
  }

  // ----- The output git prints -----

  /**
   * Entry texts as git prints them with the format of src/git.ts:25: each
   * followed by its two NULs, and a newline between records; `first` says
   * no newline comes before the first.
   */
  function Printed(xs: seq<string>, first: bool): string
  {
    if xs == [] then "" else (if first then "" else "\n") + xs[0] + "\0\0" + Printed(xs[1..], false)
  }

  /** An entry text the loop reads back as `c`: no NUL in it, no leading newline, and `read` gives `c`. */
  predicate Reads(x: string, c: Commit, read: Reader) {
    '\0' !in x && x != [] && x[0] != '\n' && read(x) == Some(c)
  }

  /** Entry texts the loop reads back as `cs`, one by one. */
  predicate Readable(xs: seq<string>, cs: seq<Commit>, read: Reader) {
    |xs| == |cs| && forall i :: 0 <= i < |xs| ==> Reads(xs[i], cs[i], read)
  }

  /** No NUL from `i` up to `n`, and two NULs at `n`: the entry from `i` ends at `n`. */
  lemma {:induction false} NulPairAt(s: string, i: nat, n: nat)
    requires i <= n && n + 2 <= |s| && s[n] == '\0' && s[n + 1] == '\0'
    requires forall k :: i <= k < n ==> s[k] != '\0'
    ensures EntryEnd(s, i) == n
    decreases n - i
  {
    if i < n {
      NulPairAt(s, i + 1, n);
    }
  }

  /** A text without NUL followed by two NULs, written at `i`: the entry from `i` ends at those NULs. */
  lemma NulPairText(s: string, i: nat, x: string)
    requires '\0' !in x && TextAt(s, i, x + "\0\0")
    ensures EntryEnd(s, i) == i + |x|
  {
    var u := x + "\0\0";
    TextAtChars(s, i, u);
    assert s[i + |x|] == u[|x|] && s[i + |x| + 1] == u[|x| + 1];
    forall k | i <= k < i + |x| ensures s[k] != '\0' {
      assert s[k] == u[k - i] == x[k - i];
    }
    NulPairAt(s, i, i + |x|);
  }

  /** Without a NUL from `i` on, the entry from `i` runs to the end of the output. */
  lemma {:induction false} NoNulPair(s: string, i: nat)
    requires i <= |s| && forall k :: i <= k < |s| ==> s[k] != '\0'
    ensures EntryEnd(s, i) == |s|
    decreases |s| - i
  {
    if i + 2 <= |s| {
      NoNulPair(s, i + 1);
    }
  }

  /** An entry after an optional newline, written at `at` with its two NULs: the loop reads it and moves past them. */
  lemma LogReadsRecord(s: string, at: nat, lead: string, x: string, c: Commit, next: nat, read: Reader)
    requires lead == "" || lead == "\n"
    requires Reads(x, c, read)
    requires TextAt(s, at, lead + x + "\0\0") && next == at + |lead + x| + 2
    ensures LogFrom(s, at, read) == [c] + LogFrom(s, next, read)
  {
    var e := lead + x;
    var n := at + |e|;
    assert at < |s| && EntryEnd(s, at) == n by {
      assert '\0' !in e;
      NulPairText(s, at, e);
      TextAtChars(s, at, e + "\0\0");
    }
    assert DropLeadingNewline(s[at..n]) == x by {
      TextAtSplit(s, at, e, "\0\0");
      TextAtSlice(s, at, e);
      if lead == "\n" {
        assert e[1..] == x;
      }
    }
    assert next == n + 2;
    LogTakes(s, at, n, x, c, next, read);
  }

  /** The entry at `at` ends at `n` and reads as `c`: `c` comes first, and the loop goes on at `next`. */
  lemma LogTakes(s: string, at: nat, n: nat, x: string, c: Commit, next: nat, read: Reader)
    requires at < |s| && n == EntryEnd(s, at) && x == DropLeadingNewline(s[at..n])
    requires read(x) == Some(c) && next == n + 2
    ensures LogFrom(s, at, read) == [c] + LogFrom(s, next, read)
  {
    LogStep(s, at, n, x, read, Some(c));
  }

  /** The printed entries, with the first one moved to the prefix or the rest moved to the suffix. */
  lemma PrintedFirst(s: string, pre: string, xs: seq<string>, first: bool, rest: string)
    requires xs != [] && s == pre + Printed(xs, first) + rest
    ensures var r := (if first then "" else "\n") + xs[0] + "\0\0";
      && s == pre + r + (Printed(xs[1..], false) + rest)
      && s == (pre + r) + Printed(xs[1..], false) + rest
      && |Printed(xs, first)| == |r| + |Printed(xs[1..], false)|
  {
    var r := (if first then "" else "\n") + xs[0] + "\0\0";
    assert Printed(xs, first) == r + Printed(xs[1..], false);
    StringRegroup(pre, r, Printed(xs[1..], false), rest);
  }

  lemma StringRegroup(a: string, b: string, c: string, d: string)
    ensures a + (b + c) + d == a + b + (c + d) == (a + b) + c + d
  {
  }

  /** Entry texts the loop reads back, less the first one. */
  lemma ReadableTail(xs: seq<string>, cs: seq<Commit>, read: Reader)
    requires xs != [] && Readable(xs, cs, read)
    ensures Readable(xs[1..], cs[1..], read) && Reads(xs[0], cs[0], read)
  {
    assert forall i :: 0 <= i < |xs| - 1 ==> xs[1..][i] == xs[i + 1] && cs[1..][i] == cs[i + 1];
  }

  /**
   * Printed entries, after any prefix, are read one by one in order, in
   * front of whatever the rest of the output gives.
   */
  lemma {:induction false} LogReadsPrinted(s: string, at: nat, pre: string, xs: seq<string>, cs: seq<Commit>, first: bool, rest: string, stop: nat, read: Reader)
    requires Readable(xs, cs, read)
    requires s == pre + Printed(xs, first) + rest && at == |pre| && stop == at + |Printed(xs, first)|
    ensures LogFrom(s, at, read) == cs + LogFrom(s, stop, read)
    decreases |xs|
  {
    if xs == [] {
      assert [] + LogFrom(s, at, read) == LogFrom(s, at, read);
    } else {
      var lead := if first then "" else "\n";
      var r := lead + xs[0] + "\0\0";
      var tl := Printed(xs[1..], false);
      var mid := at + |r|;
      PrintedFirst(s, pre, xs, first, rest);
      ReadableTail(xs, cs, read);
      assert LogFrom(s, at, read) == [cs[0]] + LogFrom(s, mid, read) by {
        assert TextAt(s, at, r) by {
          TextAtMiddle(pre, r, tl + rest);
        }
        LogReadsRecord(s, at, lead, xs[0], cs[0], mid, read);
      }
      assert LogFrom(s, mid, read) == cs[1..] + LogFrom(s, stop, read) by {
        LogReadsPrinted(s, mid, pre + r, xs[1..], cs[1..], false, rest, stop, read);
      }
      Chain(LogFrom(s, at, read), LogFrom(s, mid, read), LogFrom(s, stop, read), cs);
    }
  }

  /** A list followed by what a first element and the list's tail were followed by. */
  lemma Chain<T>(a: seq<T>, b: seq<T>, c: seq<T>, xs: seq<T>)
    requires xs != [] && a == [xs[0]] + b && b == xs[1..] + c
    ensures a == xs + c
  {
    Regroup([xs[0]], xs[1..], c);
    assert [xs[0]] + xs[1..] == xs;
  }

  /** What follows a list is replaced by what it equals. */
  lemma Follow<T>(a: seq<T>, xs: seq<T>, b: seq<T>, ys: seq<T>)
    requires a == xs + b && b == ys
    ensures a == xs + ys
  {
  }

  lemma Padded(s: string)
    ensures s == "" + s + ""
  {
  }

  /** Printed entries that read back as `cs` give exactly `cs`, in order. */
  lemma PrintedRoundTrip(xs: seq<string>, cs: seq<Commit>, read: Reader)
    requires Readable(xs, cs, read)
    ensures LogFrom(Printed(xs, true), 0, read) == cs
  {
    var s := Printed(xs, true);
    assert LogFrom(s, 0, read) == cs + LogFrom(s, |s|, read) by {
      Padded(s);
      LogReadsPrinted(s, 0, "", xs, cs, true, "", |s|, read);
    }
    assert LogFrom(s, |s|, read) == [] by {
      LogPast(s, |s|, read);
    }
    Follow(LogFrom(s, 0, read), cs, LogFrom(s, |s|, read), []);
    assert cs + [] == cs;
  }

  /** After the printed entries, an entry that does not read stops the loop and drops the rest. */
  lemma PrintedThenFailure(s: string, xs: seq<string>, cs: seq<Commit>, rest: string, n: nat, read: Reader)
    requires Readable(xs, cs, read)
    requires s == Printed(xs, true) + rest && n == |Printed(xs, true)| && rest != []
    requires read(DropLeadingNewline(s[n..EntryEnd(s, n)])).None?
    ensures LogFrom(s, 0, read) == cs
  {
    assert LogFrom(s, 0, read) == cs + LogFrom(s, n, read) by {
      assert s == "" + Printed(xs, true) + rest;
      LogReadsPrinted(s, 0, "", xs, cs, true, rest, n, read);
    }
    assert LogFrom(s, n, read) == [] by {
      LogStep(s, n, EntryEnd(s, n), DropLeadingNewline(s[n..EntryEnd(s, n)]), read, None);
    }
    Follow(LogFrom(s, 0, read), cs, LogFrom(s, n, read), []);
    assert cs + [] == cs;
  }

  /** After the printed entries, a last entry without its two NULs runs to the end of the output and is read. */
  lemma PrintedThenUnterminated(s: string, xs: seq<string>, cs: seq<Commit>, x: string, c: Commit, read: Reader)
    requires Readable(xs, cs, read)
    requires Reads(x, c, read)
    requires s == Printed(xs, true) + ("\n" + x)
    ensures LogFrom(s, 0, read) == cs + [c]
  {
    var n := |Printed(xs, true)|;
    assert LogFrom(s, 0, read) == cs + LogFrom(s, n, read) by {
      assert s == "" + Printed(xs, true) + ("\n" + x);
      LogReadsPrinted(s, 0, "", xs, cs, true, "\n" + x, n, read);
    }
    assert LogFrom(s, n, read) == [c] by {
      LogReadsLast(s, Printed(xs, true), n, x, c, read);
    }
    Follow(LogFrom(s, 0, read), cs, LogFrom(s, n, read), [c]);
  }

  /** An entry after a newline, with nothing after it, is the last one read. */
  lemma LogReadsLast(s: string, pre: string, n: nat, x: string, c: Commit, read: Reader)
    requires Reads(x, c, read)
    requires s == pre + ("\n" + x) && n == |pre|
    ensures LogFrom(s, n, read) == [c]
  {
    var last := "\n" + x;
    assert n < |s| && EntryEnd(s, n) == |s| by {
      forall k | n <= k < |s| ensures s[k] != '\0' {
        assert s[k] == last[k - n];
      }
      NoNulPair(s, n);
    }
    assert DropLeadingNewline(s[n..|s|]) == x by {
      assert s[n..|s|] == last;
      assert last[1..] == x;
    }
    assert LogFrom(s, n, read) == [c] + LogFrom(s, |s| + 2, read) by {
      LogStep(s, n, |s|, x, read, Some(c));
    }
    assert LogFrom(s, |s| + 2, read) == [] by {
      LogPast(s, |s| + 2, read);
    }
    Follow(LogFrom(s, n, read), [c], LogFrom(s, |s| + 2, read), []);
    assert [c] + [] == [c];
  }

  // ----- The same, for the commits git prints and `parseGitCommit` -----

  /** The entry texts git prints for some commits. */
  function Entries(cs: seq<Commit>): (xs: seq<string>)
    ensures |xs| == |cs|
  {
    if cs == [] then [] else [Entry(cs[0])] + Entries(cs[1..])
  }

  /** The output git prints for some commits. */
  function Output(cs: seq<Commit>): string {
    Printed(Entries(cs), true)
  }

  /** One more entry text that reads back, in front. */
  lemma ReadableCons(x: string, c: Commit, xs: seq<string>, cs: seq<Commit>, read: Reader)
    requires Reads(x, c, read) && Readable(xs, cs, read)
    ensures Readable([x] + xs, [c] + cs, read)
  {
    forall i | 0 <= i < |xs| + 1 ensures Reads(([x] + xs)[i], ([c] + cs)[i], read) {
      if i > 0 {
        assert ([x] + xs)[i] == xs[i - 1] && ([c] + cs)[i] == cs[i - 1];
      }
    }
  }

  /** Printable commits are read back from their entries by `parseGitCommit`. */
  lemma {:induction false} EntriesReadable(cs: seq<Commit>)
    requires forall i :: 0 <= i < |cs| ==> Printable(cs[i])
    ensures Readable(Entries(cs), cs, ParseGitCommit)
  {
    EachEntryReads(cs);
    EntriesRead(cs, ParseGitCommit);
  }

  /** Each printable commit is read back from its own entry. */
  lemma {:induction false} EachEntryReads(cs: seq<Commit>)
    requires forall i :: 0 <= i < |cs| ==> Printable(cs[i])
    ensures forall i :: 0 <= i < |cs| ==> Reads(Entry(cs[i]), cs[i], ParseGitCommit)
  {
    forall i | 0 <= i < |cs| ensures Reads(Entry(cs[i]), cs[i], ParseGitCommit) {
      EntryReadable(cs[i]);
    }
  }

  /** Commits each read back from its own entry are read back, in order, from the entries of all of them. */
  lemma {:induction false} EntriesRead(cs: seq<Commit>, read: Reader)
    requires forall i :: 0 <= i < |cs| ==> Reads(Entry(cs[i]), cs[i], read)
    ensures Readable(Entries(cs), cs, read)
  {
    if cs != [] {
      EntriesRead(cs[1..], read);
      ReadableCons(Entry(cs[0]), cs[0], Entries(cs[1..]), cs[1..], read);
      assert [cs[0]] + cs[1..] == cs;
    }
  }

  /** Round trip: the output git prints for some commits gives back exactly those commits, in order. */
  lemma LogRoundTrip(cs: seq<Commit>)
    requires forall i :: 0 <= i < |cs| ==> Printable(cs[i])
    ensures LogFrom(Output(cs), 0, ParseGitCommit) == cs
  {
    EntriesReadable(cs);
    PrintedRoundTrip(Entries(cs), cs, ParseGitCommit);
  }

  /**
   * The first entry that does not parse stops the loop: the commits before
   * it are kept in order and everything after it is dropped.
   */
  lemma LogStopsAtFailure(s: string, cs: seq<Commit>, rest: string, n: nat)
    requires forall i :: 0 <= i < |cs| ==> Printable(cs[i])
    requires s == Output(cs) + rest && n == |Output(cs)| && rest != []
    requires ParseGitCommit(DropLeadingNewline(s[n..EntryEnd(s, n)])).None?
    ensures LogFrom(s, 0, ParseGitCommit) == cs
  {
    EntriesReadable(cs);
    PrintedThenFailure(s, Entries(cs), cs, rest, n, ParseGitCommit);
  }

  /** A last entry without its two NULs still runs to the end of the output and is parsed. */
  lemma LogReadsUnterminatedLast(s: string, cs: seq<Commit>, c: Commit)
    requires forall i :: 0 <= i < |cs| ==> Printable(cs[i])
    requires Printable(c) && s == Output(cs) + ("\n" + Entry(c))
    ensures LogFrom(s, 0, ParseGitCommit) == cs + [c]
  {
    EntriesReadable(cs);
    assert Reads(Entry(c), c, ParseGitCommit) by {
      EntryReadable(c);
    }
    PrintedThenUnterminated(s, Entries(cs), cs, Entry(c), c, ParseGitCommit);
  }
}
