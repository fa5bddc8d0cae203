/**
 * The first tree provider of the extension (src/git-commits-provider.ts):
 * one flat list of the commits of the only open repository, each with its
 * author's Gravatar, and a refresh that skips every other state change of
 * the repository.
 */
module GitCommitsProvider {
  import opened Wrappers
  import Avatars

  /** An entry of `repository.log()` as this provider reads it; `authorEmail` may be absent. */
  datatype LogEntry = LogEntry(message: string, hash: string, authorEmail: Option<string>)

  /** The tree item `Commit`: labelled by the message; tooltip and icon only when an email is given. */
  datatype CommitItem = CommitItem(labelText: string, tooltip: Option<string>, icon: Option<string>)

  /** JavaScript truthiness of an optional string: present and non-empty. */
  predicate Truthy(s: Option<string>) {
    s.Some? && s.value != ""
  }

  /** `new Commit(message, hash, email)`. */
  function MakeItem(message: string, hash: string, email: Option<string>, md5: string -> string): (item: CommitItem)
    ensures item.labelText == message
    ensures item.tooltip.Some? <==> Truthy(email)
    ensures item.icon.Some? <==> Truthy(email)
    ensures Truthy(email) ==> item.tooltip == email && item.icon == Some(Avatars.Gravatar(email.value, md5))
  {
    if Truthy(email) then
      CommitItem(message, email, Some(Avatars.Gravatar(email.value, md5)))
    else
      CommitItem(message, None, None)
  }

  /** `logs.map(log => new Commit(log.message, log.hash, log.authorEmail))`. */
  function Items(logs: seq<LogEntry>, md5: string -> string): (items: seq<CommitItem>)
    ensures |items| == |logs|
    ensures forall k :: 0 <= k < |logs| ==> items[k] == MakeItem(logs[k].message, logs[k].hash, logs[k].authorEmail, md5)
  {
    seq(|logs|, k requires 0 <= k < |logs| => MakeItem(logs[k].message, logs[k].hash, logs[k].authorEmail, md5))
  }

  /**
   * The state after `n` state changes starting with `wasRefresh` set: the
   * flag, and how many of the changes refreshed the view.
   */
  function AfterChanges(wasRefresh: bool, n: nat): (bool, nat)
  {
    if n == 0 then (wasRefresh, 0)
    else
      var (w, fired) := AfterChanges(wasRefresh, n - 1);
      (!w, fired + (if w then 0 else 1))
  }

  /**
   * After a refresh, the state changes alternate between swallowed and
   * refreshing: of `n` of them, `n / 2` refresh, and the flag is set again
   * after an even number.
   */
  lemma {:induction false} Alternation(n: nat)
    ensures AfterChanges(true, n) == (n % 2 == 0, n / 2)
    ensures AfterChanges(false, n) == (n % 2 == 1, (n + 1) / 2)
  {
    if n > 0 {
      Alternation(n - 1);
    }
  }

  class Provider {
    /** The repository `observer` was registered on, if any. */
    var observer: Option<nat>
    /** How many state observers have been registered. */
    var registrations: nat
    var wasRefresh: bool
    /** How many times `_onDidChangeTreeData` fired. */
    var fired: nat

    /** At most one state observer is ever registered, and `observer` is it. */
    predicate Valid()
      reads this
    {
      registrations == (if observer.Some? then 1 else 0)
    }

    constructor ()
      ensures Valid() && observer == None && wasRefresh && fired == 0
    {
      observer := None;
      registrations := 0;
      wasRefresh := true;
      fired := 0;
    }

    /** `_observeRepositoryState`: registers one more observer, on `repo`. */
    method ObserveRepositoryState(repo: nat)
      modifies this
      ensures observer == Some(repo) && registrations == old(registrations) + 1
      ensures wasRefresh == old(wasRefresh) && fired == old(fired)
    {
      observer := Some(repo);
      registrations := registrations + 1;
    }

    /** `refresh`: set the flag and fire. */
    method Refresh()
      modifies this
      ensures wasRefresh && fired == old(fired) + 1
      ensures observer == old(observer) && registrations == old(registrations)
    {
      wasRefresh := true;
      fired := fired + 1;
    }

    /** The observed repository's state changed: the first change after a refresh is swallowed, the next refreshes. */
    method StateChanged()
      requires observer.Some?
      modifies this
      ensures (wasRefresh, fired - old(fired)) == AfterChanges(old(wasRefresh), 1)
      ensures fired >= old(fired)
      ensures observer == old(observer) && registrations == old(registrations)
    {
      if wasRefresh {
        wasRefresh := false;
      } else {
        Refresh();
      }
    }

    /**
     * `getChildren`: with the git extension active and exactly one
     * repository open, observe it if nothing is observed yet and list its
     * log; otherwise list nothing.
     */
    method GetChildren(active: bool, repos: seq<nat>, logs: seq<LogEntry>, md5: string -> string)
      returns (items: seq<CommitItem>)
      requires Valid()
      modifies this
      ensures Valid()
      ensures !(active && |repos| == 1) ==> items == [] && observer == old(observer)
      ensures active && |repos| == 1 ==> items == Items(logs, md5)
      ensures active && |repos| == 1 && old(observer).None? ==> observer == Some(repos[0])
      ensures old(observer).Some? ==> observer == old(observer)
      ensures wasRefresh == old(wasRefresh) && fired == old(fired)
    {
      if active && |repos| == 1 {
        if observer.None? {
          ObserveRepositoryState(repos[0]);
        }
        items := Items(logs, md5);
      } else {
        items := [];
      }
    }
  }
}
