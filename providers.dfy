/**
 * `BaseProvider` (src/providers/base.ts) and its `GitCommitsProvider`
 * (src/providers/git-commits.ts): which repository a view follows, the one
 * state observer it keeps on it, and when the view refreshes.
 *
 * The two classes share one state here, `Provider`, whose `kind` says
 * which of them it is: the commits view overrides the two hooks
 * `onRepositoryChange` and `onStateChange` to refresh only when HEAD moves.
 * Editor events are methods: `StateChanged` for a repository's state
 * changing, and `UiChanged` for both a repository's selection changing and
 * a repository opening. What the view shows is the log `events`.
 */
module Providers {
  import opened Wrappers

  /** `repository.state.HEAD`, when there is one: the commit it points at, if any. */
  datatype Head = Head(commit: Option<string>)

  /** A repository as the provider reads it: an identity, whether the editor has it selected, and its HEAD. */
  datatype Repository = Repository(id: nat, selected: bool, head: Option<Head>)

  /** `getHeadCommit`: `HEAD && HEAD.commit`. */
  function HeadCommit(r: Repository): (c: Option<string>)
    ensures r.head.None? ==> c.None?
  {
    match r.head
    case None => None
    case Some(h) => h.commit
  }

  /** Which class the provider is. */
  datatype Kind = BaseKind | CommitsKind

  /** What the provider does that others see, in order. */
  datatype Event =
    | ManagerFor(repo: nat)   // `this.manager = new GitManager(…, repository)`
    | Disposed(repo: nat)     // the state observer on `repo` is disposed
    | Observing(repo: nat)    // a state observer is registered on `repo`
    | Refreshed               // `_onDidChangeTreeData.fire(undefined)`

  /** The disposal `observeRepositoryState` performs first, if an observer is live. */
  function Disposal(observer: Option<nat>): seq<Event> {
    match observer
    case None => []
    case Some(r) => [Disposed(r)]
  }

  /** The events of selecting `repo` while `observer` is live: new manager, hand-over of the observer, one refresh. */
  function SelectEvents(observer: Option<nat>, repo: nat): seq<Event> {
    [ManagerFor(repo)] + Disposal(observer) + [Observing(repo), Refreshed]
  }

  /** The ids of the selected repositories among `repos`, in order. */
  function Selected(repos: seq<Repository>): (ids: seq<nat>)
    ensures |ids| <= |repos|
  {
    if repos == [] then []
    else
      var last := repos[|repos| - 1];
      Selected(repos[..|repos| - 1]) + (if last.selected then [last.id] else [])
  }

  /** The repository followed after selecting each of `ids` in turn, starting from `current`. */
  function Following(current: Option<nat>, ids: seq<nat>): (r: Option<nat>)
    ensures ids != [] ==> r == Some(ids[|ids| - 1])
  {
    if ids == [] then current else Some(ids[|ids| - 1])
  }

  /** The events of selecting each of `ids` in turn, starting with `observer` live. */
  function SelectionsEvents(observer: Option<nat>, ids: seq<nat>): seq<Event>
  {
    if ids == [] then []
    else
      var init := ids[..|ids| - 1];
      SelectionsEvents(observer, init) + SelectEvents(Following(observer, init), ids[|ids| - 1])
  }

  /** Selecting one more repository extends the events by its own selection's. */
  lemma SelectionsEventsSnoc(log: seq<Event>, observer: Option<nat>, ids: seq<nat>, id: nat)
    ensures log + SelectionsEvents(observer, ids + [id])
         == log + SelectionsEvents(observer, ids) + SelectEvents(Following(observer, ids), id)
  {
    assert (ids + [id])[..|ids|] == ids;
  }

  lemma SelectedSnoc(repos: seq<Repository>, i: nat)
    requires i < |repos|
    ensures Selected(repos[..i + 1]) == Selected(repos[..i]) + (if repos[i].selected then [repos[i].id] else [])
  {
    assert repos[..i + 1][..i] == repos[..i];
  }

  /** The number of refreshes in `es`. */
  function Refreshes(es: seq<Event>): nat {
    multiset(es)[Refreshed]
  }

  lemma SelectRefreshesOnce(observer: Option<nat>, repo: nat)
    ensures Refreshes(SelectEvents(observer, repo)) == 1
  {
  }

  /** Each selection refreshes the view exactly once. */
  lemma {:induction false} OneRefreshPerSelection(observer: Option<nat>, ids: seq<nat>)
    ensures Refreshes(SelectionsEvents(observer, ids)) == |ids|
    decreases |ids|
  {
    if ids != [] {
      var init := ids[..|ids| - 1];
      OneRefreshPerSelection(observer, init);
      SelectRefreshesOnce(Following(observer, init), ids[|ids| - 1]);
    }
  }

  class Provider {
    const kind: Kind
    /** The repository the `manager` was made for. */
    var manager: Option<nat>
    /** `_stateObserver`: the repository its observer listens to. */
    var observer: Option<nat>
    /** The repositories of the state observers registered and not disposed. */
    var live: seq<nat>
    var events: seq<Event>
    /** `currentHead` of the commits view. */
    var currentHead: Option<string>

    /** At most one state observer is live, and it is `_stateObserver`. */
    predicate Valid()
      reads this
    {
      live == (match observer case None => [] case Some(r) => [r])
    }

    /** `new BaseProvider(gitApi)` before `trackRepositories`. */
    constructor (kind: Kind)
      ensures this.kind == kind && Valid()
      ensures manager == None && observer == None && events == [] && currentHead == None
    {
      this.kind := kind;
      manager := None;
      observer := None;
      live := [];
      events := [];
      currentHead := None;
    }

    method Refresh()
      modifies this
      ensures events == old(events) + [Refreshed]
      ensures manager == old(manager) && observer == old(observer) && live == old(live) && currentHead == old(currentHead)
    {
      events := events + [Refreshed];
    }

    /** `onRepositoryChange`: the commits view records the head without refreshing; the base does nothing. */
    method OnRepositoryChange(repo: Repository)
      modifies this
      ensures kind == CommitsKind ==> currentHead == HeadCommit(repo)
      ensures kind == BaseKind ==> currentHead == old(currentHead)
      ensures events == old(events) && manager == old(manager) && observer == old(observer) && live == old(live)
    {
      if kind == CommitsKind {
        currentHead := HeadCommit(repo);
      }
    }

    /**
     * `onStateChange`: the base refreshes; the commits view refreshes once
     * when the head differs from the one it recorded, and records it.
     */
    method OnStateChange(repo: Repository)
      modifies this
      ensures kind == BaseKind ==> events == old(events) + [Refreshed] && currentHead == old(currentHead)
      ensures kind == CommitsKind && HeadCommit(repo) == old(currentHead) ==> events == old(events) && currentHead == old(currentHead)
      ensures kind == CommitsKind && HeadCommit(repo) != old(currentHead) ==> events == old(events) + [Refreshed] && currentHead == HeadCommit(repo)
      ensures kind == CommitsKind ==> HeadStep(old(currentHead), HeadCommit(repo), currentHead, old(events), events)
      ensures manager == old(manager) && observer == old(observer) && live == old(live)
    {
      AfterOneHead(currentHead, HeadCommit(repo));
      if kind == CommitsKind {
        var head := HeadCommit(repo);
        if currentHead == head {
          return;
        }
        currentHead := head;
      }
      Refresh();
    }

    /** `observeRepositoryState`: dispose the live observer, if any, then observe `repo`. */
    method ObserveRepositoryState(repo: Repository)
      requires Valid()
      modifies this
      ensures Valid() && observer == Some(repo.id) && live == [repo.id]
      ensures events == old(events) + Disposal(old(observer)) + [Observing(repo.id)]
      ensures manager == old(manager) && currentHead == old(currentHead)
    {
      if observer.Some? {
        events := events + [Disposed(observer.value)];
        live := [];
      }
      events := events + [Observing(repo.id)];
      live := [repo.id];
      observer := Some(repo.id);
    }

    /** `onSelectedRepository`: a manager for `repo`, the repository hook, the observer moved to `repo`, one refresh. */
    method OnSelectedRepository(repo: Repository)
      requires Valid()
      modifies this
      ensures Valid() && manager == Some(repo.id) && observer == Some(repo.id)
      ensures events == old(events) + SelectEvents(old(observer), repo.id)
      ensures kind == CommitsKind ==> currentHead == HeadCommit(repo)
      ensures kind == BaseKind ==> currentHead == old(currentHead)
    {
      manager := Some(repo.id);
      events := events + [ManagerFor(repo.id)];
      OnRepositoryChange(repo);
      ObserveRepositoryState(repo);
      Refresh();
    }

    /** The state of `repo` changed: only the live observer hears it. */
    method StateChanged(repo: Repository)
      modifies this
      ensures observer != Some(repo.id) ==> events == old(events) && currentHead == old(currentHead)
      ensures observer == Some(repo.id) && kind == BaseKind ==> events == old(events) + [Refreshed]
      ensures observer == Some(repo.id) && kind == CommitsKind ==>
        currentHead == HeadCommit(repo)
        && events == old(events) + (if HeadCommit(repo) == old(currentHead) then [] else [Refreshed])
        && HeadStep(old(currentHead), HeadCommit(repo), currentHead, old(events), events)
      ensures manager == old(manager) && observer == old(observer) && live == old(live)
    {
      if observer == Some(repo.id) {
        OnStateChange(repo);
      }
    }

    /** `repository.ui.onDidChange`, and equally `gitApi.onDidOpenRepository`: a selected repository is selected; any other changes nothing. */
    method UiChanged(repo: Repository)
      requires Valid()
      modifies this
      ensures Valid()
      ensures !repo.selected ==> manager == old(manager) && observer == old(observer) && events == old(events) && currentHead == old(currentHead)
      ensures repo.selected ==> manager == Some(repo.id) && observer == Some(repo.id) && events == old(events) + SelectEvents(old(observer), repo.id)
    {
      if repo.selected {
        OnSelectedRepository(repo);
      }
    }

    /**
     * The `forEach` of `trackRepositories` over the repositories open at
     * start: each selected one is selected in turn, so the last of them
     * is followed.
     */
    method TrackRepositories(repos: seq<Repository>)
      requires Valid()
      modifies this
      ensures Valid()
      ensures manager == Following(old(manager), Selected(repos))
      ensures observer == Following(old(observer), Selected(repos))
      ensures Selected(repos) == [] ==> currentHead == old(currentHead)
      ensures events == old(events) + SelectionsEvents(old(observer), Selected(repos))
    {
      for i := 0 to |repos|
        invariant Valid()
        invariant manager == Following(old(manager), Selected(repos[..i]))
        invariant observer == Following(old(observer), Selected(repos[..i]))
        invariant Selected(repos[..i]) == [] ==> currentHead == old(currentHead)
        invariant events == old(events) + SelectionsEvents(old(observer), Selected(repos[..i]))
      {
        ghost var ids := Selected(repos[..i]);
        ghost var before := events;
        SelectedSnoc(repos, i);
        UiChanged(repos[i]);
        if repos[i].selected {
          SelectionsEventsSnoc(old(events), old(observer), ids, repos[i].id);
        } else {
          assert Selected(repos[..i + 1]) == ids;
          assert events == before;
        }
      }
      assert repos[..|repos|] == repos;
    }
  }

  // ----- The commits view's head filter as a function of the heads seen -----

  /** The recorded head and the refreshes after state changes showing `heads`, in order. */
  function AfterHeads(current: Option<string>, heads: seq<Option<string>>): (Option<string>, nat)
  {
    if heads == [] then (current, 0)
    else
      var (h, n) := AfterHeads(current, heads[..|heads| - 1]);
      var next := heads[|heads| - 1];
      if next == h then (h, n) else (next, n + 1)
  }

  /** One state change showing `head` took the recorded head and the refreshes of the log as `AfterHeads` says. */
  predicate HeadStep(current: Option<string>, head: Option<string>, current': Option<string>, events: seq<Event>, events': seq<Event>) {
    current' == AfterHeads(current, [head]).0
    && Refreshes(events') == Refreshes(events) + AfterHeads(current, [head]).1
  }

  /** A single head: recorded and refreshed once when it differs, else nothing. */
  lemma AfterOneHead(current: Option<string>, head: Option<string>)
    ensures AfterHeads(current, [head]) == if head == current then (current, 0) else (head, 1)
  {
    assert [head][..0] == [];
  }

  /** The number of places where `heads` moves away from the head before it (`current` before the first). */
  function Moves(current: Option<string>, heads: seq<Option<string>>): nat {
    if heads == [] then 0
    else
      var prev := if |heads| == 1 then current else heads[|heads| - 2];
      Moves(current, heads[..|heads| - 1]) + (if heads[|heads| - 1] != prev then 1 else 0)
  }

  /** The commits view refreshes exactly when HEAD moved: once per move, and the last head seen is recorded. */
  lemma {:induction false} RefreshesAtMoves(current: Option<string>, heads: seq<Option<string>>)
    ensures AfterHeads(current, heads).1 == Moves(current, heads)
    ensures AfterHeads(current, heads).0 == if heads == [] then current else heads[|heads| - 1]
    decreases |heads|
  {
    if heads != [] {
      var init := heads[..|heads| - 1];
      RefreshesAtMoves(current, init);
      if |heads| > 1 {
        assert init[|init| - 1] == heads[|heads| - 2];
      }
    }
  }

  /** A run of state changes that keep the recorded head refreshes nothing. */
  lemma UnchangedHeadNoRefresh(current: Option<string>, heads: seq<Option<string>>)
    requires forall k :: 0 <= k < |heads| ==> heads[k] == current
    ensures AfterHeads(current, heads) == (current, 0)
  {
    RefreshesAtMoves(current, heads);
    NoMoves(current, heads);
  }

  lemma {:induction false} NoMoves(current: Option<string>, heads: seq<Option<string>>)
    requires forall k :: 0 <= k < |heads| ==> heads[k] == current
    ensures Moves(current, heads) == 0
    decreases |heads|
  {
    if heads != [] {
      NoMoves(current, heads[..|heads| - 1]);
    }
  }

  /** `childrenOptions` of the commits view: merge commits always show their merged commits. */
  const ShowMergeChildren: bool := true

  /** The number of commits the commits view asks the manager for. */
  const CommitsShown: nat := 30
}
