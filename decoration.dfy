/**
 * `DecorationProvider` (src/decoration.ts): a store of file decorations
 * keyed by the string form of a URI, firing a change event on every `set`.
 *
 * URIs are their `toString()` forms, so two URIs with equal strings are one
 * key. The event emitter is the log `fired` of URIs the provider announced.
 */
module Decoration {
  import opened Wrappers

  /** A `FileDecoration`: its badge and its tooltip. */
  datatype FileDecoration = FileDecoration(badge: string, tooltip: string)

  /** The store after `set(uri, decoration)`: a missing decoration deletes the entry. */
  function Stored(store: map<string, FileDecoration>, uri: string, decoration: Option<FileDecoration>): map<string, FileDecoration> {
    match decoration
    case None => store - {uri}
    case Some(d) => store[uri := d]
  }

  /** `Map.get`: the entry, or nothing. */
  function Lookup(store: map<string, FileDecoration>, uri: string): (r: Option<FileDecoration>)
    ensures r.Some? <==> uri in store
    ensures r.Some? ==> r.value == store[uri]
  {
    if uri in store then Some(store[uri]) else None
  }

  /** What `set` stored under its own key is what a lookup of that key gives back, a deletion included. */
  lemma LookupStored(store: map<string, FileDecoration>, uri: string, decoration: Option<FileDecoration>)
    ensures Lookup(Stored(store, uri, decoration), uri) == decoration
  {
  }

  /** `set` leaves every other key as it was. */
  lemma StoredOthers(store: map<string, FileDecoration>, uri: string, decoration: Option<FileDecoration>, other: string)
    requires other != uri
    ensures Lookup(Stored(store, uri, decoration), other) == Lookup(store, other)
  {
  }

  /** A later `set` of the same key overrides an earlier one. */
  lemma StoredTwice(store: map<string, FileDecoration>, uri: string, first: Option<FileDecoration>, second: Option<FileDecoration>)
    ensures Stored(Stored(store, uri, first), uri, second) == Stored(store, uri, second)
  {
  }

  class DecorationProvider {
    var decorations: map<string, FileDecoration>
    /** The URIs passed to `_onDidChangeFileDecorations.fire`, oldest first. */
    var fired: seq<string>

    constructor ()
      ensures decorations == map[] && fired == []
    {
      decorations := map[];
      fired := [];
    }

    /** `set(uri, decoration)`: store or delete, then announce `uri` once. */
    method Set(uri: string, decoration: Option<FileDecoration>)
      modifies this
      ensures decorations == Stored(old(decorations), uri, decoration)
      ensures fired == old(fired) + [uri]
    {
      match decoration {
        case None => decorations := decorations - {uri};
        case Some(d) => decorations := decorations[uri := d];
      }
      fired := fired + [uri];
    }

    /** `provideFileDecoration(uri)`. */
    method ProvideFileDecoration(uri: string) returns (r: Option<FileDecoration>)
      ensures r == Lookup(decorations, uri)
    {
      r := if uri in decorations then Some(decorations[uri]) else None;
    }
  }

  /** The two module-level instances, `worktreeDecorator` and `changeDecorator`. */
  class Decorators {
    const worktree: DecorationProvider
    const change: DecorationProvider

    constructor ()
      ensures fresh(worktree) && fresh(change) && worktree != change
      ensures worktree.decorations == map[] && change.decorations == map[]
      ensures worktree.fired == [] && change.fired == []
    {
      worktree := new DecorationProvider();
      change := new DecorationProvider();
    }
  }
}
