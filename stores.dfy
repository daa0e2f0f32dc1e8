/**
 The expansion-state store: the list of tree paths currently expanded, and the
 path currently being edited. Each store update is an old-list to new-list
 transformation; the methods below compute those transformations with the
 loops the store uses and are proved against the functions of module Paths.
 */
module Stores {
  import opened Paths

  /**
   The list of paths expanding `path` adds: the root first, then each prefix
   `path[..i + 1]` in turn.
   */
  method PathsToAdd(path: Path) returns (pathsToAdd: seq<Path>)
    ensures pathsToAdd == Prefixes(path)
  {
    pathsToAdd := [[]];
    var i := 0;
    while i < |path|
      invariant 0 <= i <= |path|
      invariant |pathsToAdd| == i + 1
      invariant forall k :: 0 <= k <= i ==> pathsToAdd[k] == path[..k]
    {
      pathsToAdd := pathsToAdd + [path[..i + 1]];
      i := i + 1;
    }
  }

  /**
   The filter predicate of a collapse: an existing path is kept when it is
   shorter than `path` or differs from it at some segment below `|path|`.
   */
  method KeepsEntry(existingPath: Path, path: Path) returns (keep: bool)
    ensures keep <==> !IsPrefix(path, existingPath)
  {
    if |existingPath| < |path| {
      return true;
    }
    var i := 0;
    while i < |path|
      invariant 0 <= i <= |path|
      invariant existingPath[..i] == path[..i]
    {
      if existingPath[i] != path[i] {
        return true;
      }
      i := i + 1;
    }
    assert existingPath[..|path|] == path[..|path|] == path;
    return false;
  }

  /** The list a collapse of `path` leaves: the existing paths the filter predicate keeps. */
  method CollapseEntries(existingPaths: seq<Path>, path: Path) returns (newPaths: seq<Path>)
    ensures newPaths == Collapsed(existingPaths, path)
  {
    newPaths := [];
    var n := 0;
    while n < |existingPaths|
      invariant 0 <= n <= |existingPaths|
      invariant newPaths == Collapsed(existingPaths[..n], path)
    {
      var keep := KeepsEntry(existingPaths[n], path);
      assert existingPaths[..n + 1][..n] == existingPaths[..n];
      if keep {
        newPaths := newPaths + [existingPaths[n]];
      }
      n := n + 1;
    }
    assert existingPaths[..n] == existingPaths;
  }

  /** The store: the expanded paths and the path being edited. */
  class ExpansionStore {
    /** The paths currently expanded, in the order they were added. */
    var expanded: seq<Path>
    /** The path currently being edited. */
    var editPath: Path

    /** Both stores start out empty. */
    constructor ()
      ensures expanded == [] && editPath == []
    {
      expanded := [];
      editPath := [];
    }

    /**
     Appends the root and every prefix of `path`, up to `path` itself, to the
     expanded paths. Old entries stay at the front in their order; no value
     deduplication happens.
     */
    method ExpandPath(path: Path)
      modifies this`expanded
      ensures expanded == old(expanded) + Prefixes(path)
      ensures expanded[..|old(expanded)|] == old(expanded)
      ensures [] in expanded && path in expanded
      ensures forall k :: 0 <= k <= |path| ==> path[..k] in expanded
      ensures forall e :: e in expanded <==> e in old(expanded) || IsPrefix(e, path)
      ensures editPath == old(editPath)
    {
      var pathsToAdd := PathsToAdd(path);
      expanded := expanded + pathsToAdd;
      forall e ensures e in expanded <==> e in old(expanded) || IsPrefix(e, path) {
        ExpandedMembership(old(expanded), path, e);
      }
    }

    /**
     Removes `path` and every descendant of it from the expanded paths; every
     other entry stays, in its original order.
     */
    method CollapsePath(path: Path)
      modifies this`expanded
      ensures expanded == Collapsed(old(expanded), path)
      ensures forall e :: e in expanded <==> e in old(expanded) && !IsPrefix(path, e)
      ensures IsSubsequence(expanded, old(expanded)) && |expanded| <= |old(expanded)|
      ensures path == [] ==> expanded == []
      ensures editPath == old(editPath)
    {
      var newPaths := CollapseEntries(expanded, path);
      forall e ensures e in newPaths <==> e in expanded && !IsPrefix(path, e) {
        CollapsedMembership(expanded, path, e);
      }
      CollapsedIsSubsequence(expanded, path);
      CollapsedNotLonger(expanded, path);
      if path == [] {
        CollapseRootEmpties(expanded);
      }
      expanded := newPaths;
    }
  }
}
