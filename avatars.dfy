/**
 * `getAvatarUrl` and its `sources` (src/utils/avatars.ts): an avatar URL for
 * an author's email, from GitHub or Gravatar, remembered per email in a
 * module-level cache.
 *
 * The MD5 digest and `encodeURIComponent` are outside the model: they are
 * the function parameters `md5` and `encode`.
 */
module Avatars {
  import opened Wrappers
  import opened JsStrings

  /** The domain of GitHub's no-reply addresses. */
  const NoreplyDomain: string := "users.noreply.github.com"

  /** The characters a regular-expression `.` does not match. */
  predicate IsLineTerminator(c: char) {
    c == '\n' || c == '\r' || c == '\U{2028}' || c == '\U{2029}'
  }

  /**
   * `t` matches the domain part of the pattern. With `strictDots`, the dots
   * are literal dots; without, they are unescaped regular-expression dots
   * that match any character but a line terminator.
   */
  predicate DomainMatches(t: string, strictDots: bool) {
    |t| == |NoreplyDomain|
    && forall k :: 0 <= k < |t| ==>
      if NoreplyDomain[k] == '.' && !strictDots then !IsLineTerminator(t[k]) else t[k] == NoreplyDomain[k]
  }

  /** The number of leading decimal digits of `s`. */
  function DigitRun(s: string): (n: nat)
    ensures n <= |s| && AllDigits(s[..n]) && (n < |s| ==> !IsDigit(s[n]))
  {
    if s != [] && IsDigit(s[0]) then
      assert s[..1 + DigitRun(s[1..])] == [s[0]] + s[1..][..DigitRun(s[1..])];
      1 + DigitRun(s[1..])
    else 0
  }

  /** The index of the first `c` in `s`, if any. */
  function FirstOf(s: string, c: char): (i: Option<nat>)
    ensures i.Some? ==> i.value < |s| && s[i.value] == c && c !in s[..i.value]
    ensures i.None? ==> c !in s
  {
    if s == [] then None
    else if s[0] == c then Some(0)
    else match FirstOf(s[1..], c)
      case None => None
      case Some(j) =>
        assert s[..j + 1] == [s[0]] + s[1..][..j];
        Some(j + 1)
  }

  /**
   * `email.match(/^(\d+)\+[^@]+@users.noreply.github.com$/)`, giving the
   * digits of group 1. The digits before `+` can only be the whole leading
   * digit run, and `[^@]+` stops at the first `@` after the `+`, so the
   * match is found by one scan; `strictDots` reads the dots as literal.
   */
  function NoreplyDigits(email: string, strictDots: bool): Option<string> {
    var n := DigitRun(email);
    if n == 0 || n == |email| || email[n] != '+' then None
    else
      var rest := email[n + 1..];
      match FirstOf(rest, '@')
      case None => None
      case Some(at) =>
        if at == 0 || !DomainMatches(rest[at + 1..], strictDots) then None
        else Some(email[..n])
  }

  /** An address built as `<digits>+<name>@<domain>` matches iff its domain does, with the digits as group 1. */
  lemma NoreplyOf(digits: string, name: string, domain: string, strictDots: bool)
    requires digits != [] && AllDigits(digits) && name != [] && '@' !in name
    ensures NoreplyDigits(digits + "+" + name + "@" + domain, strictDots)
      == if DomainMatches(domain, strictDots) then Some(digits) else None
  {
    var email := digits + "+" + name + "@" + domain;
    assert email[..|digits|] == digits;
    assert email[|digits|] == '+';
    DigitRunOf(email, |digits|);
    var rest := email[|digits| + 1..];
    assert rest == name + "@" + domain;
    FirstOfAt(rest, '@', |name|);
    assert rest[|name| + 1..] == domain;
  }

  lemma DigitRunOf(s: string, n: nat)
    requires n < |s| && AllDigits(s[..n]) && !IsDigit(s[n])
    ensures DigitRun(s) == n
  {
    var m := DigitRun(s);
    if m < n {
      assert false;
    } else if m > n {
      assert false;
    }
  }

  lemma FirstOfAt(s: string, c: char, i: nat)
    requires i < |s| && s[i] == c && c !in s[..i]
    ensures FirstOf(s, c) == Some(i)
  {
  }

  /** A match comes only from an address of that shape. */
  lemma NoreplyShape(email: string, strictDots: bool)
    requires NoreplyDigits(email, strictDots).Some?
    ensures var digits := NoreplyDigits(email, strictDots).value;
      digits != [] && AllDigits(digits)
      && (exists name, domain :: name != [] && '@' !in name && DomainMatches(domain, strictDots)
            && email == digits + "+" + name + "@" + domain)
  {
    var n := DigitRun(email);
    var rest := email[n + 1..];
    var at := FirstOf(rest, '@').value;
    var name := rest[..at];
    var domain := rest[at + 1..];
    assert NoreplyDigits(email, strictDots).value == email[..n];
    assert '@' !in name && DomainMatches(domain, strictDots);
    Decompose(email, n, at);
  }

  /** Cutting `s` at a `+` and then at an `@` after it and gluing the pieces back gives `s`. */
  lemma Decompose(s: string, n: nat, at: nat)
    requires n < |s| && s[n] == '+' && at < |s| - n - 1 && s[n + 1 + at] == '@'
    ensures s == s[..n] + "+" + s[n + 1..][..at] + "@" + s[n + 1..][at + 1..]
  {
    var rest := s[n + 1..];
    assert rest[at] == '@';
    assert rest == rest[..at] + "@" + rest[at + 1..];
    assert s == s[..n] + "+" + rest;
  }

  /** With literal dots the domain is exactly `users.noreply.github.com`. */
  lemma StrictDomain(t: string)
    ensures DomainMatches(t, true) <==> t == NoreplyDomain
  {
    if DomainMatches(t, true) {
      assert forall k :: 0 <= k < |t| ==> t[k] == NoreplyDomain[k];
    }
  }

  /**
   * The pattern as written accepts a no-reply-looking address whose domain
   * only resembles `users.noreply.github.com`; read with literal dots it
   * does not.
   */
  lemma UnescapedDots(digits: string, name: string, domain: string)
    requires digits != [] && AllDigits(digits) && name != [] && '@' !in name
    requires DomainMatches(domain, false) && domain != NoreplyDomain
    ensures NoreplyDigits(digits + "+" + name + "@" + domain, false) == Some(digits)
    ensures NoreplyDigits(digits + "+" + name + "@" + domain, true) == None
  {
    NoreplyOf(digits, name, domain, false);
    NoreplyOf(digits, name, domain, true);
    StrictDomain(domain);
  }

  /** Such a domain exists: `users-noreply-github-com`. */
  lemma LookAlikeDomain()
    ensures DomainMatches("users-noreply-github-com", false)
    ensures "users-noreply-github-com" != NoreplyDomain
  {
    var t := "users-noreply-github-com";
    assert t[5] != NoreplyDomain[5];
  }

  const GithubPrefix: string := "https://avatars.githubusercontent.com/u/"
  const GravatarPrefix: string := "https://www.gravatar.com/avatar/"

  /**
   * `sources.github`: the numeric id of a no-reply address, or a lookup by
   * the encoded email. The pattern's dots are read as literal dots here.
   */
  function Github(email: string, encode: string -> string): (url: string)
    ensures NoreplyDigits(email, true).Some? ==> url == GithubPrefix + NoreplyDigits(email, true).value + "?s=20"
    ensures NoreplyDigits(email, true).None? ==> url == GithubPrefix + "e?email=" + encode(email) + "&s=20"
  {
    match NoreplyDigits(email, true)
    case Some(id) => GithubPrefix + id + "?s=20"
    case None => GithubPrefix + "e?email=" + encode(email) + "&s=20"
  }

  /** `sources.github` with the pattern exactly as written (unescaped dots). */
  function GithubAsWritten(email: string, encode: string -> string): (url: string)
    ensures NoreplyDigits(email, false).Some? ==> url == GithubPrefix + NoreplyDigits(email, false).value + "?s=20"
    ensures NoreplyDigits(email, false).None? ==> url == GithubPrefix + "e?email=" + encode(email) + "&s=20"
  {
    match NoreplyDigits(email, false)
    case Some(id) => GithubPrefix + id + "?s=20"
    case None => GithubPrefix + "e?email=" + encode(email) + "&s=20"
  }

  /** A GitHub no-reply address gives the avatar of its numeric user id. */
  lemma GithubNoreply(id: string, name: string, encode: string -> string)
    requires id != [] && AllDigits(id) && name != [] && '@' !in name
    ensures Github(id + "+" + name + "@" + NoreplyDomain, encode) == GithubPrefix + id + "?s=20"
  {
    StrictDomain(NoreplyDomain);
    NoreplyOf(id, name, NoreplyDomain, true);
  }

  /** The real no-reply domain also matches the pattern as written. */
  lemma LooseNoreplyDomain()
    ensures DomainMatches(NoreplyDomain, false)
  {
    forall k | 0 <= k < |NoreplyDomain|
      ensures if NoreplyDomain[k] == '.' then !IsLineTerminator(NoreplyDomain[k]) else NoreplyDomain[k] == NoreplyDomain[k]
    {
    }
  }

  /** As written, a GitHub no-reply address also gives the avatar of its numeric user id. */
  lemma GithubAsWrittenNoreply(id: string, name: string, encode: string -> string)
    requires id != [] && AllDigits(id) && name != [] && '@' !in name
    ensures GithubAsWritten(id + "+" + name + "@" + NoreplyDomain, encode) == GithubPrefix + id + "?s=20"
  {
    LooseNoreplyDomain();
    NoreplyOf(id, name, NoreplyDomain, false);
  }

  /** The as-written source gives a look-alike address the avatar of a GitHub user id. */
  lemma GithubAsWrittenLookAlike(digits: string, name: string, domain: string, encode: string -> string)
    requires digits != [] && AllDigits(digits) && name != [] && '@' !in name
    requires DomainMatches(domain, false) && domain != NoreplyDomain
    ensures var email := digits + "+" + name + "@" + domain;
      GithubAsWritten(email, encode) == GithubPrefix + digits + "?s=20"
      && Github(email, encode) == GithubPrefix + "e?email=" + encode(email) + "&s=20"
  {
    UnescapedDots(digits, name, domain);
  }

  /** Outside look-alike domains the two readings agree. */
  lemma GithubAgrees(email: string, encode: string -> string)
    requires NoreplyDigits(email, false).Some? ==> NoreplyDigits(email, true).Some?
    ensures GithubAsWritten(email, encode) == Github(email, encode)
  {
    if NoreplyDigits(email, true).Some? {
      NoreplyLooser(email);
    }
  }

  /** A match with literal dots is a match with the dots as written, with the same digits. */
  lemma NoreplyLooser(email: string)
    requires NoreplyDigits(email, true).Some?
    ensures NoreplyDigits(email, false) == NoreplyDigits(email, true)
  {
    var n := DigitRun(email);
    var rest := email[n + 1..];
    var at := FirstOf(rest, '@').value;
    StrictDomain(rest[at + 1..]);
    LooseNoreplyDomain();
  }

  /**
   * `sources.gravatar`: the MD5 digest of the email under the Gravatar
   * prefix. Its URLs are never GitHub avatar URLs.
   */
  function Gravatar(email: string, md5: string -> string): (url: string)
    ensures GravatarPrefix <= url && !(GithubPrefix <= url)
  {
    var url := GravatarPrefix + md5(email) + "?s=20";
    assert url[8] != GithubPrefix[8];
    url
  }

  /** Two emails get the same Gravatar URL exactly when their digests agree. */
  lemma GravatarByDigest(e1: string, e2: string, md5: string -> string)
    ensures Gravatar(e1, md5) == Gravatar(e2, md5) <==> md5(e1) == md5(e2)
  {
    var u1, u2 := Gravatar(e1, md5), Gravatar(e2, md5);
    if u1 == u2 {
      assert u1 == GravatarPrefix + (md5(e1) + "?s=20");
      assert u2 == GravatarPrefix + (md5(e2) + "?s=20");
      assert md5(e1) + "?s=20" == u1[|GravatarPrefix|..] == md5(e2) + "?s=20";
      assert md5(e1) == (md5(e1) + "?s=20")[..|md5(e1)|];
      assert md5(e2) == (md5(e2) + "?s=20")[..|md5(e2)|];
    }
  }

  /**
   * What `sources[source]` finds. `sources` is an object literal, so a
   * lookup also sees what it inherits: the name `constructor` finds the
   * `Object` function.
   */
  datatype Source = GithubSource | GravatarSource | ObjectSource

  /**
   * `sources[source] || sources[defaultSource]`: `github` and `gravatar` by
   * name, the inherited `constructor` as `Object`, and any other name (or
   * none) the gravatar default.
   */
  function SourceFor(source: Option<string>): (s: Source)
    ensures s == GithubSource <==> source == Some("github")
    ensures s == ObjectSource <==> source == Some("constructor")
  {
    if source == Some("github") then GithubSource
    else if source == Some("constructor") then ObjectSource
    else GravatarSource
  }

  /** The intended lookup: only the two sources the literal defines, every other name falling back to gravatar. */
  function OwnSourceFor(source: Option<string>): (s: Source)
    ensures s != ObjectSource
    ensures s == GithubSource <==> source == Some("github")
    ensures source != Some("constructor") ==> s == SourceFor(source)
  {
    if source == Some("github") then GithubSource else GravatarSource
  }

  /**
   * The value the chosen source returns for `email`, with the `github`
   * pattern as written. `Object(email)` returns a wrapper of the email
   * itself, so that source gives the email text, not a URL.
   */
  function SourceUrl(s: Source, email: string, md5: string -> string, encode: string -> string): (url: string)
    ensures s == GithubSource ==> GithubPrefix <= url
    ensures s == GravatarSource ==> GravatarPrefix <= url && !(GithubPrefix <= url)
    ensures s == ObjectSource ==> url == email
  {
    match s
    case GithubSource => GithubAsWritten(email, encode)
    case GravatarSource => Gravatar(email, md5)
    case ObjectSource => email
  }

  /**
   * The URL `getAvatarUrl` was meant to compute: `github` by name with the
   * dots read literally, and gravatar for every other name.
   */
  function IntendedUrl(email: string, source: Option<string>, md5: string -> string, encode: string -> string): (url: string)
    ensures source == Some("github") ==> url == Github(email, encode)
    ensures source != Some("github") ==> url == Gravatar(email, md5)
  {
    match OwnSourceFor(source)
    case GithubSource => Github(email, encode)
    case _ => Gravatar(email, md5)
  }

  /**
   * The value as written and the intended URL agree except on the source
   * name `constructor` and on a look-alike address under `github`.
   */
  lemma AsWrittenAsIntended(email: string, source: Option<string>, md5: string -> string, encode: string -> string)
    requires source != Some("constructor")
    requires source == Some("github") && NoreplyDigits(email, false).Some? ==> NoreplyDigits(email, true).Some?
    ensures SourceUrl(SourceFor(source), email, md5, encode) == IntendedUrl(email, source, md5, encode)
  {
    if source == Some("github") {
      GithubAgrees(email, encode);
    }
  }

  /** The module-level `cache` with the two foreign functions the sources call. */
  class AvatarCache {
    var cache: map<string, string>
    const md5: string -> string
    const encode: string -> string

    constructor (md5: string -> string, encode: string -> string)
      ensures cache == map[] && this.md5 == md5 && this.encode == encode
    {
      cache := map[];
      this.md5 := md5;
      this.encode := encode;
    }

    /** What `getAvatarUrl` computes on a miss: the value of the source `source` finds. */
    function Compute(email: string, source: Option<string>): string
    {
      SourceUrl(SourceFor(source), email, md5, encode)
    }

    /**
     * `getAvatarUrl(email, source)`: a cached email returns its URL whatever
     * the source; otherwise the URL is computed and stored under the email,
     * and no other entry changes.
     */
    method GetAvatarUrl(email: string, source: Option<string>) returns (url: string)
      modifies this
      ensures email in old(cache) ==> url == old(cache)[email] && cache == old(cache)
      ensures email !in old(cache) ==> url == Compute(email, source) && cache == old(cache)[email := url]
      ensures email in cache && cache[email] == url
    {
      if email in cache {
        return cache[email];
      }
      url := Compute(email, source);
      cache := cache[email := url];
    }
  }
}
