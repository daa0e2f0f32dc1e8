/**
 Paths into a JSON tree and the two list transformations the expansion-state
 store applies to its list of expanded paths: appending the prefixes of a path
 (expand) and dropping a path with all its descendants (collapse).
 */
module Paths {

  /** A path descends from the root one segment at a time; `[]` is the root. */
  type Path = seq<string>

  /** `p` is a segment-wise prefix of `q`: `q` is `p` itself or one of its descendants. */
  predicate IsPrefix(p: Path, q: Path)
  {
    |p| <= |q| && q[..|p|] == p
  }

  /** The paths expanding `p` adds, in the order it adds them: the root, then `p[..1]`, ..., `p[..|p|]`. */
  function Prefixes(p: Path): seq<Path>
  {
    seq(|p| + 1, k requires 0 <= k <= |p| => p[..k])
  }

  /**
   The list left after collapsing `p`: the entries that do not have `p` as a
   prefix, in their original order.
   */
  function Collapsed(entries: seq<Path>, p: Path): seq<Path>
  {
    if entries == [] then []
    else
      var rest := Collapsed(entries[..|entries| - 1], p);
      var last := entries[|entries| - 1];
      if IsPrefix(p, last) then rest else rest + [last]
  }

  /** `s` is `t` with some entries left out and the rest in their original order. */
  ghost predicate IsSubsequence(s: seq<Path>, t: seq<Path>)
  {
    if s == [] then true
    else if t == [] then false
    else
      (s[|s| - 1] == t[|t| - 1] && IsSubsequence(s[..|s| - 1], t[..|t| - 1]))
      || IsSubsequence(s, t[..|t| - 1])
  }

  // ---------------------------------------------------------------------------
  // The segment-wise prefix relation
  // ---------------------------------------------------------------------------

  /**
   Being a prefix is decided segment by segment: `e` descends from `p` exactly
   when it is at least as long and agrees with `p` at every index below `|p|`.
   Equivalently, `e` is kept by a collapse of `p` when it is shorter than `p` or
   differs from it at some index below `|p|`.
   */
  lemma IsPrefixBySegments(p: Path, e: Path)
    ensures IsPrefix(p, e) <==> |e| >= |p| && forall i :: 0 <= i < |p| ==> e[i] == p[i]
    ensures !IsPrefix(p, e) <==> |e| < |p| || exists i :: 0 <= i < |p| && e[i] != p[i]
  {
    if |e| >= |p| && forall i :: 0 <= i < |p| ==> e[i] == p[i] {
      assert e[..|p|] == p;
    }
  }

  /** A sibling whose name merely starts with the same characters is not a descendant. */
  lemma TextualPrefixIsNotPathPrefix()
    ensures !IsPrefix(["a"], ["ab"])
    ensures !IsPrefix(["a"], ["ab", "c"])
    ensures IsPrefix(["a"], ["a", "b"])
  {
    assert ["ab"][..1] == ["ab"];
    assert ["ab", "c"][..1] == ["ab"];
    assert ["a", "b"][..1] == ["a"];
  }

  // ---------------------------------------------------------------------------
  // Expanding: the prefixes of a path
  // ---------------------------------------------------------------------------

  /**
   The added paths start at the root, grow by one segment at a time and end
   with `p` itself; each is a prefix of `p` and of every later one.
   */
  lemma PrefixesOrdered(p: Path)
    ensures |Prefixes(p)| == |p| + 1
    ensures Prefixes(p)[0] == [] && Prefixes(p)[|p|] == p
    ensures forall k :: 0 <= k <= |p| ==> |Prefixes(p)[k]| == k
    ensures forall i, j :: 0 <= i <= j <= |p| ==> IsPrefix(Prefixes(p)[i], Prefixes(p)[j])
  {
    assert p[..|p|] == p;
    forall i, j | 0 <= i <= j <= |p|
      ensures IsPrefix(Prefixes(p)[i], Prefixes(p)[j])
    {
      assert p[..j][..i] == p[..i];
    }
  }

  /** The added paths are exactly the prefixes of `p`: the root, every ancestor and `p`. */
  lemma PrefixesAreAllPrefixes(p: Path, q: Path)
    ensures q in Prefixes(p) <==> IsPrefix(q, p)
  {
    if IsPrefix(q, p) {
      assert Prefixes(p)[|q|] == q;
    }
  }

  /**
   Expanding keeps the old list, unchanged and in order, at the front, and
   afterwards the list holds the root, every prefix of `p` and `p` itself.
   Nothing but old entries and prefixes of `p` is present.
   */
  lemma ExpandedMembership(entries: seq<Path>, p: Path, e: Path)
    ensures (entries + Prefixes(p))[..|entries|] == entries
    ensures [] in entries + Prefixes(p) && p in entries + Prefixes(p)
    ensures forall k :: 0 <= k <= |p| ==> p[..k] in entries + Prefixes(p)
    ensures e in entries + Prefixes(p) <==> e in entries || IsPrefix(e, p)
  {
    PrefixesOrdered(p);
    forall k | 0 <= k <= |p| ensures p[..k] in entries + Prefixes(p) {
      assert (entries + Prefixes(p))[|entries| + k] == p[..k];
    }
    PrefixesAreAllPrefixes(p, e);
  }

  // ---------------------------------------------------------------------------
  // Collapsing: dropping a path and its descendants
  // ---------------------------------------------------------------------------

  /**
   An entry survives a collapse of `p` exactly when it was present and does not
   have `p` as a prefix: `p` and its descendants are gone, strict ancestors,
   siblings and unrelated paths stay.
   */
  lemma {:induction false} CollapsedMembership(entries: seq<Path>, p: Path, e: Path)
    ensures e in Collapsed(entries, p) <==> e in entries && !IsPrefix(p, e)
    decreases |entries|
  {
    if entries != [] {
      var init := entries[..|entries| - 1];
      CollapsedMembership(init, p, e);
      assert entries == init + [entries[|entries| - 1]];
    }
  }

  /** Every entry that survives a collapse of `p` is shorter than `p` or departs from it below `|p|`. */
  lemma CollapsedRemovesDescendants(entries: seq<Path>, p: Path, e: Path)
    requires e in Collapsed(entries, p)
    ensures e in entries
    ensures |e| < |p| || exists i :: 0 <= i < |p| && e[i] != p[i]
  {
    CollapsedMembership(entries, p, e);
    IsPrefixBySegments(p, e);
  }

  /** Entries shorter than `p`, or differing from it at an index below `|p|`, survive its collapse. */
  lemma CollapsedKeepsNonDescendants(entries: seq<Path>, p: Path, e: Path)
    requires e in entries
    requires |e| < |p| || exists i :: 0 <= i < |p| && e[i] != p[i]
    ensures e in Collapsed(entries, p)
  {
    IsPrefixBySegments(p, e);
    CollapsedMembership(entries, p, e);
  }

  /** A collapse keeps the surviving entries in their original relative order. */
  lemma {:induction false} CollapsedIsSubsequence(entries: seq<Path>, p: Path)
    ensures IsSubsequence(Collapsed(entries, p), entries)
    decreases |entries|
  {
    if entries != [] {
      var init := entries[..|entries| - 1];
      var last := entries[|entries| - 1];
      CollapsedIsSubsequence(init, p);
      if IsPrefix(p, last) {
        SubsequenceOfLonger(Collapsed(init, p), init, last);
        assert init + [last] == entries;
      } else {
        var r := Collapsed(init, p) + [last];
        assert r[..|r| - 1] == Collapsed(init, p);
      }
    }
  }

  /** Appending an entry to `t` keeps every subsequence of `t` a subsequence. */
  lemma SubsequenceOfLonger(s: seq<Path>, t: seq<Path>, x: Path)
    requires IsSubsequence(s, t)
    ensures IsSubsequence(s, t + [x])
  {
    if s != [] {
      assert (t + [x])[..|t|] == t;
    }
  }

  /** A subsequence is never longer than the list it is taken from. */
  lemma {:induction false} SubsequenceLength(s: seq<Path>, t: seq<Path>)
    requires IsSubsequence(s, t)
    ensures |s| <= |t|
    decreases |t|
  {
    if s != [] {
      if s[|s| - 1] == t[|t| - 1] && IsSubsequence(s[..|s| - 1], t[..|t| - 1]) {
        SubsequenceLength(s[..|s| - 1], t[..|t| - 1]);
      } else {
        SubsequenceLength(s, t[..|t| - 1]);
      }
    }
  }

  /** A collapse never lengthens the list. */
  lemma CollapsedNotLonger(entries: seq<Path>, p: Path)
    ensures |Collapsed(entries, p)| <= |entries|
  {
    CollapsedIsSubsequence(entries, p);
    SubsequenceLength(Collapsed(entries, p), entries);
  }

  /** Every path has the root as a prefix, so collapsing the root empties the list. */
  lemma {:induction false} CollapseRootEmpties(entries: seq<Path>)
    ensures Collapsed(entries, []) == []
    decreases |entries|
  {
    if entries != [] {
      CollapseRootEmpties(entries[..|entries| - 1]);
    }
  }

  /** Collapsing the same path twice leaves the list as the first collapse did. */
  lemma {:induction false} CollapseIdempotent(entries: seq<Path>, p: Path)
    ensures Collapsed(Collapsed(entries, p), p) == Collapsed(entries, p)
    decreases |entries|
  {
    if entries != [] {
      var init := entries[..|entries| - 1];
      var last := entries[|entries| - 1];
      CollapseIdempotent(init, p);
      if !IsPrefix(p, last) {
        var r := Collapsed(init, p) + [last];
        assert r[..|r| - 1] == Collapsed(init, p);
      }
    }
  }

  /** Collapsing `p` when no entry lies under it leaves the list as it was. */
  lemma {:induction false} CollapseUnrelatedUnchanged(entries: seq<Path>, p: Path)
    requires forall i :: 0 <= i < |entries| ==> !IsPrefix(p, entries[i])
    ensures Collapsed(entries, p) == entries
    decreases |entries|
  {
    if entries != [] {
      var init := entries[..|entries| - 1];
      CollapseUnrelatedUnchanged(init, p);
      assert init + [entries[|entries| - 1]] == entries;
    }
  }

  /** Collapsing a list extended by one entry is collapsing the list, then keeping the entry if it survives. */
  lemma CollapsedSnoc(s: seq<Path>, x: Path, p: Path)
    ensures Collapsed(s + [x], p) == if IsPrefix(p, x) then Collapsed(s, p) else Collapsed(s, p) + [x]
  {
    assert (s + [x])[..|s + [x]| - 1] == s;
  }

  /** Collapsing `["a"]` drops `["a"]` and `["a", "b"]` but keeps the sibling `["ab"]` and the root. */
  lemma CollapseIsSegmentwise()
    ensures Collapsed([[], ["a"], ["ab"], ["a", "b"]], ["a"]) == [[], ["ab"]]
  {
    var p: Path := ["a"];
    var x0: Path, x1: Path, x2: Path, x3: Path := [], ["a"], ["ab"], ["a", "b"];
    var e0: seq<Path> := [];
    var e1: seq<Path> := [x0];
    var e2: seq<Path> := [x0, x1];
    var e3: seq<Path> := [x0, x1, x2];
    var e4: seq<Path> := [x0, x1, x2, x3];
    TextualPrefixIsNotPathPrefix();
    assert !IsPrefix(p, x0);
    assert e0 + [x0] == e1;
    CollapsedSnoc(e0, x0, p);
    assert Collapsed(e1, p) == [x0];
    assert e1 + [x1] == e2;
    CollapsedSnoc(e1, x1, p);
    assert Collapsed(e2, p) == [x0];
    assert e2 + [x2] == e3;
    CollapsedSnoc(e2, x2, p);
    assert Collapsed(e3, p) == [x0, x2];
    assert e3 + [x3] == e4;
    CollapsedSnoc(e3, x3, p);
  }

  /**
   Expanding any path and then collapsing it leaves the root and every strict
   ancestor of the path in the list, and neither the path nor anything beneath
   it; for the root itself the list becomes empty.
   */
  lemma ExpandThenCollapse(entries: seq<Path>, p: Path, e: Path)
    ensures forall k :: 0 <= k < |p| ==> p[..k] in Collapsed(entries + Prefixes(p), p)
    ensures IsPrefix(p, e) ==> e !in Collapsed(entries + Prefixes(p), p)
    ensures p == [] ==> Collapsed(entries + Prefixes(p), p) == []
  {
    if p == [] {
      CollapseRootEmpties(entries + Prefixes(p));
    } else {
      forall k | 0 <= k < |p| ensures p[..k] in Collapsed(entries + Prefixes(p), p) {
        ExpandedMembership(entries, p, p[..k]);
        CollapsedMembership(entries + Prefixes(p), p, p[..k]);
      }
      CollapsedMembership(entries + Prefixes(p), p, e);
    }
  }
}
