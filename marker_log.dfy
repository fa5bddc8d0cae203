/**
 * `log` and `parseGitCommit` (src/git.ts): reading the output of
 * `git log --pretty=format:` with a layout in which every field sits on
 * its own between marker lines, and every record ends in two NULs.
 *
 * The pattern of src/git.ts:18 is read as a backtracking matcher reads it:
 * the match starts at the first opening `::commit::` line, and each group
 * `(.+)?` (which under the `s` flag may span lines) runs to the LAST place
 * from which the rest of the pattern can still match. `ReadFields`, which
 * stops each field at the FIRST occurrence of its closer, decides whether
 * the rest can match.
 */
module MarkerLog {
  import opened Wrappers
  import opened JsStrings

  /** The named groups of the pattern: the `Commit` type of src/git.ts. */
  datatype Commit = Commit(
    commit: string,
    subject: string,
    author: string,
    authorEmail: string,
    date: string,
    body: string)

  function Fields(c: Commit): seq<string> {
    [c.commit, c.subject, c.author, c.authorEmail, c.date, c.body]
  }

  /** What opens a record. */
  const Open: string := "::commit::\n"

  /** The text that closes a field: never empty. */
  type Closer = c: string | c != [] witness "\n"

  /** What closes each field, in the order of the fields. */
  const Closers: seq<Closer> := [
    "\n::commit::\n::subject::\n",
    "\n::subject::\n::author::\n",
    "\n::author::\n::authorEmail::\n",
    "\n::authorEmail::\n::date::\n",
    "\n::date::\n::body::\n",
    "\n::body::"]

  /** `t` contains `pat` somewhere. */
  predicate Contains(t: string, pat: string) {
    exists k :: 0 <= k <= |t| && OccursAt(t, pat, k)
  }

  /**
   * Each field from `i` on, up to the first occurrence of its closer; the next
   * field starts right after that closer.
   */
  function ReadFields(t: string, i: nat, closers: seq<Closer>): (r: Option<seq<string>>)
    requires i <= |t|
    ensures r.Some? ==> |r.value| == |closers|
    decreases |closers|
  {
    if closers == [] then Some([])
    else
      match IndexOf(t, closers[0], i)
      case None => None
      case Some(j) =>
        match ReadFields(t, j + |closers[0]|, closers[1..])
        case None => None
        case Some(rest) => Some([t[i..j]] + rest)
  }

  /** No field read by `ReadFields` contains the closer it was read up to. */
  lemma {:induction false} ReadFieldsUncut(t: string, i: nat, closers: seq<Closer>)
    requires i <= |t|
    ensures ReadFields(t, i, closers).Some? ==>
      forall k :: 0 <= k < |closers| ==> !Contains(ReadFields(t, i, closers).value[k], closers[k])
    decreases |closers|
  {
    if closers != [] {
      match IndexOf(t, closers[0], i)
      case None =>
      case Some(j) =>
        var n := j + |closers[0]|;
        ReadFieldsUncut(t, n, closers[1..]);
        FieldBeforeCloser(t, i, j, closers[0]);
    }
  }

  /** A field read up to the first occurrence of its closer does not contain that closer. */
  lemma FieldBeforeCloser(t: string, i: nat, j: nat, c: string)
    requires c != [] && i <= j && OccursAt(t, c, j)
    requires forall k :: i <= k < j ==> !OccursAt(t, c, k)
    ensures !Contains(t[i..j], c)
  {
    var f := t[i..j];
    forall k | 0 <= k <= |f| ensures !OccursAt(f, c, k) {
      if k + |c| <= |f| {
        var a, b := f[k..k + |c|], t[i + k..i + k + |c|];
        forall m | 0 <= m < |c| ensures a[m] == b[m] {
          assert a[m] == t[i + k + m];
        }
        assert a == b;
        assert !OccursAt(t, c, i + k);
      }
    }
  }

    /** The closers in order can still be found from `i` on: a match can be completed from `i`. */
  predicate Fits(t: string, i: nat, closers: seq<Closer>)
  {
    i <= |t| && ReadFields(t, i, closers).Some?
  }

  /** A group may end at `q`: its closer occurs there and the later closers follow it in order. */
  predicate EndsGroup(t: string, q: nat, closers: seq<Closer>)
    requires closers != []
  {
    OccursAt(t, closers[0], q) && Fits(t, q + |closers[0]|, closers[1..])
  }

  /**
   * Where a greedy group that starts at `i` ends: the last `q` up to `hi` at
   * which it may end, or none.
   */
  function LastEnd(t: string, i: nat, hi: nat, closers: seq<Closer>): (r: Option<nat>)
    requires closers != []
    ensures r.Some? ==> i <= r.value <= hi && EndsGroup(t, r.value, closers)
    ensures r.Some? ==> forall q :: r.value < q <= hi ==> !EndsGroup(t, q, closers)
    ensures r.None? ==> forall q :: i <= q <= hi ==> !EndsGroup(t, q, closers)
    decreases hi
  {
    if hi < i then None
    else if EndsGroup(t, hi, closers) then Some(hi)
    else if hi == i then None
    else LastEnd(t, i, hi - 1, closers)
  }

  /**
   * The groups `(?<name>(.+)?)` of the pattern from `i` on, each followed by
   * its closer: a greedy group runs to the last place where the rest of the
   * pattern can still match.
   */
  function GreedyFields(t: string, i: nat, closers: seq<Closer>): (r: Option<seq<string>>)
    requires i <= |t|
    ensures r.Some? ==> |r.value| == |closers|
    decreases |closers|
  {
    if closers == [] then Some([])
    else
      match LastEnd(t, i, |t|, closers)
      case None => None
      case Some(j) =>
        match GreedyFields(t, j + |closers[0]|, closers[1..])
        case None => None
        case Some(rest) => Some([t[i..j]] + rest)
  }

  /** Closers found in order from `j` are found in order from any earlier `i` too. */
  lemma {:induction false} FitsEarlier(t: string, i: nat, j: nat, closers: seq<Closer>)
    requires i <= j
    requires Fits(t, j, closers)
    ensures Fits(t, i, closers)
    decreases |closers|
  {
    if closers != [] {
      var c := closers[0];
      var q := IndexOf(t, c, j).value;
      var p := IndexOf(t, c, i).value;
      var pc, qc := p + |c|, q + |c|;
      assert ReadFields(t, qc, closers[1..]).Some?;
      FitsEarlier(t, pc, qc, closers[1..]);
      var rest := ReadFields(t, pc, closers[1..]).value;
      assert ReadFields(t, i, closers) == Some([t[i..p]] + rest);
    }
  }

  /** The greedy groups match from `i` exactly when the closers occur in order from `i`. */
  lemma {:induction false} GreedyFits(t: string, i: nat, closers: seq<Closer>)
    requires i <= |t|
    ensures GreedyFields(t, i, closers).Some? <==> Fits(t, i, closers)
    decreases |closers|
  {
    if closers != [] {
      if Fits(t, i, closers) {
        var j, jc := FitsEnd(t, i, closers);
        GreedyFits(t, jc, closers[1..]);
        GreedyStep(t, i, j, jc, closers);
      }
      if GreedyFields(t, i, closers).Some? {
        GreedyEndFits(t, i, closers);
      }
    }
  }

  /** When the closers occur in order from `i`, a first group from `i` can end somewhere. */
  lemma FitsEnd(t: string, i: nat, closers: seq<Closer>) returns (j: nat, jc: nat)
    requires closers != []
    requires Fits(t, i, closers)
    ensures LastEnd(t, i, |t|, closers) == Some(j) && jc == j + |closers[0]|
    ensures jc <= |t| && Fits(t, jc, closers[1..])
  {
    var q := IndexOf(t, closers[0], i).value;
    assert EndsGroup(t, q, closers);
    j := LastEnd(t, i, |t|, closers).value;
    jc := j + |closers[0]|;
  }

  /** A first group ending at `j` and a match of the rest make a match. */
  lemma GreedyStep(t: string, i: nat, j: nat, jc: nat, closers: seq<Closer>)
    requires i <= |t| && closers != []
    requires LastEnd(t, i, |t|, closers) == Some(j) && jc == j + |closers[0]|
    requires jc <= |t| && GreedyFields(t, jc, closers[1..]).Some?
    ensures GreedyFields(t, i, closers).Some?
  {
  }

  /** A group from `i` that may end at `j` shows that the closers occur in order from `i`. */
  lemma GroupEndFits(t: string, i: nat, j: nat, closers: seq<Closer>)
    requires closers != [] && i <= j && EndsGroup(t, j, closers)
    ensures Fits(t, i, closers)
  {
    var c := closers[0];
    assert OccursAt(t, c, j);
    var p := IndexOf(t, c, i).value;
    assert p <= j;
    var pc, jc := p + |c|, j + |c|;
    FitsEarlier(t, pc, jc, closers[1..]);
    var rest := ReadFields(t, pc, closers[1..]).value;
    assert ReadFields(t, i, closers) == Some([t[i..p]] + rest);
  }

  /** Where a greedy match exists, the closers occur in order. */
  lemma GreedyEndFits(t: string, i: nat, closers: seq<Closer>)
    requires i <= |t| && closers != []
    requires GreedyFields(t, i, closers).Some?
    ensures Fits(t, i, closers)
  {
    var j := LastEnd(t, i, |t|, closers).value;
    GroupEndFits(t, i, j, closers);
  }

  /**
   * The six fields of the match of the pattern of src/git.ts:18 in `t`, or
   * none. The match starts at the first opening line: `FirstOpenDecides`
   * shows that no later one can match when that one does not.
   */
  function MatchFields(t: string): (r: Option<seq<string>>)
    ensures r.Some? ==> |r.value| == 6
  {
    MatchAfterOpen(t, Closers)
  }

  /** The greedy groups closed by `closers`, read after the first opening line. */
  function MatchAfterOpen(t: string, closers: seq<Closer>): (r: Option<seq<string>>)
    ensures r.Some? ==> |r.value| == |closers|
  {
    match IndexOf(t, Open, 0)
    case None => None
    case Some(p) => GreedyFields(t, p + |Open|, closers)
  }

  /** A match starting at a later opening line implies one at the first. */
  lemma FirstOpenDecides(t: string, p: nat, p2: nat)
    requires IndexOf(t, Open, 0) == Some(p) && OccursAt(t, Open, p2)
    ensures GreedyFields(t, p2 + |Open|, Closers).Some? ==> GreedyFields(t, p + |Open|, Closers).Some?
  {
    if GreedyFields(t, p2 + |Open|, Closers).Some? {
      GreedyFits(t, p2 + |Open|, Closers);
      FitsEarlier(t, p + |Open|, p2 + |Open|, Closers);
      GreedyFits(t, p + |Open|, Closers);
    }
  }

  /** The pattern matches exactly when the six closers follow the first opening line in order. */
  lemma MatchFieldsFits(t: string)
    ensures MatchFields(t).Some? <==>
      IndexOf(t, Open, 0).Some? && Fits(t, IndexOf(t, Open, 0).value + |Open|, Closers)
  {
    if IndexOf(t, Open, 0).Some? {
      OpenedFits(t, Closers);
    }
  }

  lemma OpenedFits(t: string, cl: seq<Closer>)
    requires IndexOf(t, Open, 0).Some?
    ensures GreedyFields(t, IndexOf(t, Open, 0).value + |Open|, cl).Some? <==>
      Fits(t, IndexOf(t, Open, 0).value + |Open|, cl)
  {
    GreedyFits(t, IndexOf(t, Open, 0).value + |Open|, cl);
  }

  /** `parseGitCommit(raw)`: the record in the trimmed entry, or none. */
  function ParseGitCommit(raw: string): Option<Commit> {
    match MatchFields(Trim(raw))
    case None => None
    case Some(fs) => Some(Commit(fs[0], fs[1], fs[2], fs[3], fs[4], fs[5]))
  }

  // ----- Printing: the text the format of src/git.ts:25 makes git print -----

  /** Each field followed by the text that closes it. */
  function Layout(fs: seq<string>, closers: seq<string>): string
    requires |fs| == |closers|
    decreases |fs|
  {
    if fs == [] then "" else fs[0] + closers[0] + Layout(fs[1..], closers[1..])
  }

  /** One commit as printed, before its two NULs: the format ends in a newline after `::body::`. */
  function Entry(c: Commit): string {
    Open + Layout(Fields(c), Closers) + "\n"
  }

  /** `c` occurs in `u` at `e` and nowhere else. */
  predicate OnlyAt(u: string, c: string, e: nat) {
    forall q :: 0 <= q <= |u| && OccursAt(u, c, q) ==> q == e
  }

  /**
   * Each closer occurs in the text laid out from its field on only right
   * after that field.
   */
  predicate Delimited(fs: seq<string>, cl: seq<string>)
    requires |fs| == |cl|
    decreases |fs|
  {
    fs == [] || (OnlyAt(Layout(fs, cl), cl[0], |fs[0]|) && Delimited(fs[1..], cl[1..]))
  }

  /**
   * Commits whose printed record can be read back: no field holds a NUL, and
   * from each field on, the closer of that field occurs in the record only
   * right after it.
   */
  predicate Printable(c: Commit) {
    (forall k :: 0 <= k < 6 ==> '\0' !in Fields(c)[k]) && Delimited(Fields(c), Closers)
  }

  /**
   * Fields laid out from `i` to the end of `t` are read back by the greedy
   * groups when each closer occurs, from its field on, only right after it.
   */
  lemma {:induction false} GreedyText(t: string, i: nat, fs: seq<string>, cl: seq<Closer>)
    requires |fs| == |cl|
    requires i <= |t| && t[i..] == Layout(fs, cl) && Delimited(fs, cl)
    ensures GreedyFields(t, i, cl) == Some(fs)
    decreases |fs|
  {
    if fs != [] {
      var f, c := fs[0], cl[0];
      var e, j := i + |f|, i + |f| + |c|;
      var lay, rest := Layout(fs, cl), Layout(fs[1..], cl[1..]);
      assert lay == f + c + rest;
      assert t[j..] == rest by {
        LaidOut(t, i, f, c, rest);
      }
      GreedyText(t, j, fs[1..], cl[1..]);
      GreedyShowsFits(t, j, cl[1..], fs[1..]);
      FirstGroupEnds(t, i, f, cl, rest, lay, e, j);
      GreedyStepAt(t, i, e, cl, fs[1..]);
      assert [f] + fs[1..] == fs;
    }
  }

  /**
   * The first group ends right after the first field when the closers after it
   * are in order and its closer occurs nowhere else in what is left.
   */
  lemma FirstGroupEnds(t: string, i: nat, f: string, cl: seq<Closer>, rest: string, lay: string, e: nat, j: nat)
    requires cl != [] && lay == f + cl[0] + rest && i <= |t| && t[i..] == lay
    requires e == i + |f| && j == e + |cl[0]|
    requires OnlyAt(lay, cl[0], |f|)
    requires j <= |t| && ReadFields(t, j, cl[1..]).Some?
    ensures LastEnd(t, i, |t|, cl) == Some(e) && t[i..e] == f
  {
    var c := cl[0];
    LaidOut(t, i, f, c, rest);
    forall q | e < q <= |t| ensures !OccursAt(t, c, q) {
      OccursShift(t, i, lay, q, c);
    }
    LastEndAt(t, i, e, cl);
  }

  /** A first group that ends at `e`, then groups that read `rest`. */
  lemma GreedyStepAt(t: string, i: nat, e: nat, cl: seq<Closer>, rest: seq<string>)
    requires i <= |t| && cl != []
    requires LastEnd(t, i, |t|, cl) == Some(e)
    requires GreedyFields(t, e + |cl[0]|, cl[1..]) == Some(rest)
    ensures GreedyFields(t, i, cl) == Some([t[i..e]] + rest)
  {
  }

  /** A field, its closer and the rest written from `i` to the end of `t`. */
  lemma LaidOut(t: string, i: nat, f: string, c: string, rest: string)
    requires i <= |t| && t[i..] == f + c + rest
    ensures t[i..i + |f|] == f && OccursAt(t, c, i + |f|) && t[i + |f| + |c|..] == rest
  {
    var u := t[i..];
    assert u[..|f|] == f && u[|f|..|f| + |c|] == c && u[|f| + |c|..] == rest;
    assert t[i..i + |f|] == u[..|f|];
    assert t[i + |f|..i + |f| + |c|] == u[|f|..|f| + |c|];
    assert t[i + |f| + |c|..] == u[|f| + |c|..];
  }

  /** An occurrence in the text from `i` on is an occurrence in `t`, shifted by `i`. */
  lemma OccursShift(t: string, i: nat, u: string, q: nat, c: string)
    requires i <= q && i <= |t| && t[i..] == u
    ensures OccursAt(t, c, q) <==> OccursAt(u, c, q - i)
  {
    if q + |c| <= |t| {
      var a, b := t[q..q + |c|], u[q - i..q - i + |c|];
      forall m | 0 <= m < |c| ensures a[m] == b[m] {
        assert a[m] == t[q + m] && b[m] == u[q - i + m];
      }
      assert a == b;
    }
  }

  /** A group that may end at `e`, when its closer occurs nowhere after `e`, ends at `e`. */
  lemma LastEndAt(t: string, i: nat, e: nat, cl: seq<Closer>)
    requires cl != []
    requires i <= e <= |t| && OccursAt(t, cl[0], e) && Fits(t, e + |cl[0]|, cl[1..])
    requires forall q :: e < q <= |t| ==> !OccursAt(t, cl[0], q)
    ensures LastEnd(t, i, |t|, cl) == Some(e)
  {
    assert EndsGroup(t, e, cl);
  }

  /** Groups that match from `i` show that the closers occur in order from `i`. */
  lemma GreedyShowsFits(t: string, i: nat, cl: seq<Closer>, fs: seq<string>)
    requires i <= |t| && GreedyFields(t, i, cl) == Some(fs)
    ensures ReadFields(t, i, cl).Some?
  {
    GreedyFits(t, i, cl);
  }

  /** The last character of a layout is the last character of its last closer. */
  lemma {:induction false} LayoutLast(fs: seq<string>, cl: seq<string>)
    requires |fs| == |cl| > 0 && cl[|cl| - 1] != []
    ensures |Layout(fs, cl)| > 0
    ensures Layout(fs, cl)[|Layout(fs, cl)| - 1] == cl[|cl| - 1][|cl[|cl| - 1]| - 1]
    decreases |fs|
  {
    if |fs| > 1 {
      LayoutLast(fs[1..], cl[1..]);
    }
  }

  /** Printable fields and the closers hold no NUL, nor does the layout. */
  lemma {:induction false} LayoutNoNul(fs: seq<string>, cl: seq<string>)
    requires |fs| == |cl|
    requires forall k :: 0 <= k < |fs| ==> '\0' !in fs[k] && '\0' !in cl[k]
    ensures '\0' !in Layout(fs, cl)
    decreases |fs|
  {
    if fs != [] {
      LayoutNoNul(fs[1..], cl[1..]);
    }
  }

  /** What `parseGitCommit` reads from a printed commit is that commit. */
  lemma ParseEntry(c: Commit)
    requires Printable(c)
    ensures ParseGitCommit(Entry(c)) == Some(c)
  {
    var body := Open + Layout(Fields(c), Closers);
    assert Trim(Entry(c)) == body by {
      EntryTrim(c, body);
    }
    assert MatchFields(body) == Some(Fields(c)) by {
      BodyFields(c, body);
    }
    ParseOf(Entry(c), body, c);
  }

  /** Trimming a printed commit drops only the newline at its end. */
  lemma EntryTrim(c: Commit, body: string)
    requires body == Open + Layout(Fields(c), Closers)
    ensures Trim(Entry(c)) == body
  {
    LayoutLast(Fields(c), Closers);
    assert body[|body| - 1] == ':';
    TrimEndWhitespace(body, "\n");
    assert Entry(c)[0] == ':';
  }

  /** The six fields of a printed commit are found after its opening line. */
  lemma BodyFields(c: Commit, body: string)
    requires Printable(c) && body == Open + Layout(Fields(c), Closers)
    ensures MatchFields(body) == Some(Fields(c))
  {
    LaidOutFields(body, Fields(c), Closers);
  }

  /** Fields laid out after the opening line, each closer occurring only after its field, are read by the greedy groups. */
  lemma LaidOutFields(t: string, fs: seq<string>, cl: seq<Closer>)
    requires |fs| == |cl| && Delimited(fs, cl) && t == Open + Layout(fs, cl)
    ensures MatchAfterOpen(t, cl) == Some(fs)
  {
    var i := OpenFirst(t, Layout(fs, cl));
    GreedyText(t, i, fs, cl);
  }

  /** A text that starts with the opening line has its first opening line at 0. */
  lemma OpenFirst(t: string, rest: string) returns (i: nat)
    requires t == Open + rest
    ensures IndexOf(t, Open, 0) == Some(0) && i == 0 + |Open| && i <= |t| && t[i..] == rest
  {
    assert t[0..|Open|] == Open;
    IndexOfFirst(t, Open, 0, 0);
    i := 0 + |Open|;
    assert t[i..] == rest;
  }

  /** An entry that trims to a text whose fields are those of `c` is read as `c`. */
  lemma ParseOf(raw: string, t: string, c: Commit)
    requires Trim(raw) == t && MatchFields(t) == Some(Fields(c))
    ensures ParseGitCommit(raw) == Some(c)
  {
  }

  lemma ClosersNoNul()
    ensures forall k :: 0 <= k < 6 ==> '\0' !in Closers[k]
  {
    forall k | 0 <= k < 6 ensures '\0' !in Closers[k] {
      var c := Closers[k];
      forall j | 0 <= j < |c| ensures c[j] != '\0' {
        assert c[j] in "\n:abcdefhijlmorstuyE";
      }
    }
  }

  /** A printed commit holds no NUL, starts with its opening line, and `parseGitCommit` reads it back. */
  lemma EntryReadable(c: Commit)
    requires Printable(c)
    ensures '\0' !in Entry(c) && Entry(c) != [] && Entry(c)[0] != '\n'
    ensures ParseGitCommit(Entry(c)) == Some(c)
  {
    assert '\0' !in Entry(c) && Entry(c)[0] == ':' by {
      ClosersNoNul();
      LayoutNoNul(Fields(c), Closers);
    }
    ParseEntry(c);
  }
}
